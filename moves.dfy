/**
 * Decoding a hex fingerprint into the bishop's moves (hex_to_dirs).
 *
 * The source works on strings: each two-digit byte is parsed, written as
 * bin(byte)[2:].zfill(8), cut into four two-character bit pairs, the four
 * pairs are reversed and every pair is looked up in a table of directions.
 * The definitions below follow those stages; the lemmas show that the result
 * is the arithmetic reading "low bit pair first, bytes left to right".
 */
module Moves {
  import opened Wrappers

  /** The four diagonal steps of the bishop. */
  datatype Move = NW | NE | SW | SE

  /** The error hex_to_dirs raises (its assertion on the length). */
  datatype DecodeError = OddLength

  /** The (dx, dy) vector of a move; y grows downwards. */
  function Delta(m: Move): (d: (int, int))
    ensures d.0 == -1 || d.0 == 1
    ensures d.1 == -1 || d.1 == 1
  {
    match m
    case NW => (-1, -1)
    case NE => (1, -1)
    case SW => (-1, 1)
    case SE => (1, 1)
  }

  /** The move a two-bit code stands for: 00 NW, 01 NE, 10 SW, 11 SE. */
  function MoveOfCode(code: nat): (m: Move)
    requires code < 4
    ensures Delta(m) == (if code == 1 || code == 3 then 1 else -1, if code >= 2 then 1 else -1)
  {
    if code == 0 then NW else if code == 1 then NE else if code == 2 then SW else SE
  }

  /** The two-bit code of a move; the inverse of MoveOfCode. */
  function CodeOf(m: Move): (code: nat)
    ensures code < 4 && MoveOfCode(code) == m
  {
    match m
    case NW => 0
    case NE => 1
    case SW => 2
    case SE => 3
  }

  lemma CodeRoundTrip(code: nat)
    requires code < 4
    ensures CodeOf(MoveOfCode(code)) == code
  {
  }

  // ---------------------------------------------------------------- hex digits

  predicate IsHexDigit(c: char) {
    '0' <= c <= '9' || 'a' <= c <= 'f' || 'A' <= c <= 'F'
  }

  predicate IsHexString(s: string) {
    forall i :: 0 <= i < |s| ==> IsHexDigit(s[i])
  }

  /** A hex digit in lower case, as Python's hexdigest writes it. */
  function HexDigit(v: nat): (c: char)
    requires v < 16
    ensures IsHexDigit(c)
  {
    if v < 10 then ('0' as int + v) as char else ('a' as int + v - 10) as char
  }

  function Lower(c: char): char {
    if 'A' <= c <= 'Z' then (c as int - 'A' as int + 'a' as int) as char else c
  }

  /** The value of one hex digit, either case. */
  function HexValue(c: char): (v: nat)
    requires IsHexDigit(c)
    ensures v < 16 && HexDigit(v) == Lower(c)
  {
    if '0' <= c <= '9' then c as int - '0' as int
    else if 'a' <= c <= 'f' then c as int - 'a' as int + 10
    else c as int - 'A' as int + 10
  }

  /** int(pair, 16) for a pair of hex digits. */
  function ParseByte(hi: char, lo: char): (b: nat)
    requires IsHexDigit(hi) && IsHexDigit(lo)
    ensures b < 256
    ensures b / 16 == HexValue(hi) && b % 16 == HexValue(lo)
  {
    16 * HexValue(hi) + HexValue(lo)
  }

  // ---------------------------------------------------------- binary numerals

  function BitChar(bit: nat): char
    requires bit < 2
  {
    if bit == 0 then '0' else '1'
  }

  predicate IsBit(c: char) {
    c == '0' || c == '1'
  }

  function Pow2(n: nat): (p: nat)
    ensures p >= 1
  {
    if n == 0 then 1 else 2 * Pow2(n - 1)
  }

  /** bin(v)[2:]: the shortest binary numeral of v, most significant bit first. */
  function BinaryDigits(v: nat): (s: string)
    ensures 1 <= |s| && v < Pow2(|s|)
    ensures forall i :: 0 <= i < |s| ==> IsBit(s[i])
    ensures s[0] == (if v == 0 then '0' else '1')
    decreases v
  {
    if v < 2 then [BitChar(v)] else BinaryDigits(v / 2) + [BitChar(v % 2)]
  }

  function Zeros(n: nat): (s: string)
    ensures |s| == n
    ensures forall i :: 0 <= i < n ==> s[i] == '0'
  {
    if n == 0 then "" else Zeros(n - 1) + "0"
  }

  /** str.zfill(width) for a string without a sign: left padding with '0'. */
  function ZFill(s: string, width: int): (r: string)
    ensures |r| == if |s| < width then width else |s|
    ensures r[|r| - |s|..] == s
    ensures forall i :: 0 <= i < |r| - |s| ==> r[i] == '0'
  {
    if |s| >= width then s else Zeros(width - |s|) + s
  }

  /** bin(decimal)[2:].zfill(8) */
  function Bin8(b: nat): (s: string)
    ensures |s| >= 8
  {
    ZFill(BinaryDigits(b), 8)
  }

  /** bin(b)[2:].zfill(8) of a byte is its eight-bit numeral, most significant bit first. */
  lemma Bin8Bits(b: nat)
    requires b < 256
    ensures Bin8(b) == BitsOf(b, 8)
  {
    assert Pow2(8) == 256;
    ZFillBinary(b, 8);
  }

  /** Reference: the low n bits of v, most significant first. */
  function BitsOf(v: nat, n: nat): (s: string)
    ensures |s| == n
  {
    if n == 0 then "" else BitsOf(v / 2, n - 1) + [BitChar(v % 2)]
  }

  // ----------------------------------------------------------- bit-pair table

  /** [s[i:i + 2] for i in range(0, len(s), 2)]: the pairs in order, a lone last character when |s| is odd. */
  function SplitPairs(s: string): (ps: seq<string>)
    ensures |ps| == (|s| + 1) / 2
    decreases |s|
  {
    if |s| <= 2 then (if s == [] then [] else [s])
    else [s[..2]] + SplitPairs(s[2..])
  }

  /** A list reversed (list.reverse, as a value). */
  function Reverse<T>(s: seq<T>): (r: seq<T>)
    ensures |r| == |s|
  {
    if s == [] then [] else Reverse(s[1..]) + [s[0]]
  }

  predicate IsBitPair(p: string) {
    |p| == 2 && IsBit(p[0]) && IsBit(p[1])
  }

  /** direction_map: '00' NW, '01' NE, '10' SW, '11' SE. */
  function DirectionMap(pair: string): (m: Move)
    requires IsBitPair(pair)
    ensures Delta(m) == (if pair[1] == '1' then 1 else -1, if pair[0] == '1' then 1 else -1)
  {
    if pair == "00" then NW
    else if pair == "01" then NE
    else if pair == "10" then SW
    else SE
  }

  /** [direction_map[j] for j in pairs] */
  function Directions(pairs: seq<string>): (ms: seq<Move>)
    requires forall i :: 0 <= i < |pairs| ==> IsBitPair(pairs[i])
    ensures |ms| == |pairs|
    ensures forall i :: 0 <= i < |pairs| ==> ms[i] == DirectionMap(pairs[i])
  {
    if pairs == [] then [] else Directions(pairs[..|pairs| - 1]) + [DirectionMap(pairs[|pairs| - 1])]
  }

  // ---------------------------------------------------------- the three stages

  /** The list bin_bytes: one eight-character numeral per byte, in byte order. */
  function BinBytes(hex: string): (bs: seq<string>)
    requires IsHexString(hex) && |hex| % 2 == 0
    ensures |bs| == |hex| / 2
  {
    if hex == [] then []
    else BinBytes(hex[..|hex| - 2]) + [Bin8(ParseByte(hex[|hex| - 2], hex[|hex| - 1]))]
  }

  /** Numeral k of bin_bytes is the byte of hex digits 2k and 2k+1. */
  lemma {:induction false} BinBytesAt(hex: string, k: nat)
    requires IsHexString(hex) && |hex| % 2 == 0 && 2 * k + 1 < |hex|
    ensures |BinBytes(hex)| == |hex| / 2
    ensures BinBytes(hex)[k] == Bin8(ParseByte(hex[2 * k], hex[2 * k + 1]))
    decreases |hex|
  {
    var p := hex[..|hex| - 2];
    HexStringPrefix(hex, |hex| - 2);
    if 2 * k + 2 < |hex| {
      BinBytesAt(p, k);
      assert p[2 * k] == hex[2 * k] && p[2 * k + 1] == hex[2 * k + 1];
    }
  }

  /** The list pairs: the bit pairs of every numeral, reversed within it. */
  function PairsOf(binBytes: seq<string>): (ps: seq<string>)
    ensures (forall i :: 0 <= i < |binBytes| ==> |binBytes[i]| == 8) ==> |ps| == 4 * |binBytes|
  {
    if binBytes == [] then []
    else PairsOf(binBytes[..|binBytes| - 1]) + Reverse(SplitPairs(binBytes[|binBytes| - 1]))
  }

  /** hex_to_dirs: fails on an odd length, otherwise the moves in reading order. */
  function Decode(hex: string): (r: Result<seq<Move>, DecodeError>)
    requires IsHexString(hex)
    ensures r.Ok? <==> |hex| % 2 == 0
  {
    if |hex| % 2 != 0 then Err(OddLength)
    else
      StagesAreReference(hex);
      Ok(Directions(PairsOf(BinBytes(hex))))
  }

  // ------------------------------------------------------ reference definition

  /** A byte's moves, low bit pair first. */
  function ByteMoves(b: nat): (ms: seq<Move>)
    requires b < 256
  {
    [MoveOfCode(b % 4), MoveOfCode(b / 4 % 4), MoveOfCode(b / 16 % 4), MoveOfCode(b / 64)]
  }

  /** Reference decoding: bytes left to right, each byte's moves low pair first. */
  function MovesOf(hex: string): (ms: seq<Move>)
    requires IsHexString(hex) && |hex| % 2 == 0
    ensures |ms| == 2 * |hex|
  {
    if hex == [] then []
    else MovesOf(hex[..|hex| - 2]) + ByteMoves(ParseByte(hex[|hex| - 2], hex[|hex| - 1]))
  }

  /** The inverse of ByteMoves: four moves back to the byte they encode. */
  function EncodeByte(ms: seq<Move>): (b: nat)
    requires |ms| == 4
    ensures b < 256
  {
    CodeOf(ms[0]) + 4 * CodeOf(ms[1]) + 16 * CodeOf(ms[2]) + 64 * CodeOf(ms[3])
  }

  /** The inverse of decoding: moves, four per byte, back to lower-case hex. */
  function EncodeHex(ms: seq<Move>): (hex: string)
    requires |ms| % 4 == 0
    ensures |hex| == |ms| / 2 && |hex| % 2 == 0 && IsHexString(hex)
  {
    if ms == [] then ""
    else
      var b := EncodeByte(ms[|ms| - 4..]);
      var h := EncodeHex(ms[..|ms| - 4]);
      var d := [HexDigit(b / 16), HexDigit(b % 16)];
      HexStringConcat(h, d);
      h + d
  }

  lemma HexStringConcat(a: string, b: string)
    requires IsHexString(a) && IsHexString(b)
    ensures IsHexString(a + b)
  {
    forall i | 0 <= i < |a + b| ensures IsHexDigit((a + b)[i]) {
      if i >= |a| {
        assert (a + b)[i] == b[i - |a|];
      }
    }
  }

  // ------------------------------------------------------------------- lemmas

  lemma {:induction false} BitsOfZero(n: nat)
    ensures BitsOf(0, n) == Zeros(n)
  {
    if n > 0 {
      BitsOfZero(n - 1);
    }
  }

  /** A number below 2^n has at most n binary digits. */
  lemma {:induction false} BinaryLength(v: nat, n: nat)
    requires 1 <= n && v < Pow2(n)
    ensures |BinaryDigits(v)| <= n
    decreases n
  {
    if v >= 2 {
      assert Pow2(1) == 2;
      BinaryLength(v / 2, n - 1);
    }
  }

  /** bin(v)[2:].zfill(n) is the fixed-width numeral of v when v < 2^n. */
  lemma {:induction false} ZFillBinary(v: nat, n: nat)
    requires 1 <= n && v < Pow2(n)
    ensures ZFill(BinaryDigits(v), n) == BitsOf(v, n)
    decreases n
  {
    if v < 2 {
      BitsOfZero(n - 1);
      assert BinaryDigits(v) == [BitChar(v)];
      assert v / 2 == 0 && v % 2 == v;
    } else {
      assert Pow2(1) == 2;
      var d := BinaryDigits(v / 2);
      BinaryLength(v / 2, n - 1);
      ZFillBinary(v / 2, n - 1);
      assert BinaryDigits(v) == d + [BitChar(v % 2)];
      assert ZFill(d + [BitChar(v % 2)], n) == ZFill(d, n - 1) + [BitChar(v % 2)];
    }
  }

  /** The bit pair of a two-bit code, high bit first. */
  function CodePair(c: nat): (p: string)
    requires c < 4
    ensures IsBitPair(p) && DirectionMap(p) == MoveOfCode(c)
  {
    [BitChar(c / 2), BitChar(c % 2)]
  }

  /** The low k bit pairs of v, lowest first. */
  function LowPairs(v: nat, k: nat): (ps: seq<string>)
    ensures |ps| == k && forall i :: 0 <= i < k ==> IsBitPair(ps[i])
  {
    if k == 0 then [] else [CodePair(v % 4)] + LowPairs(v / 4, k - 1)
  }

  /** A byte written in base four: its digits are b % 4, b / 4 % 4, b / 16 % 4 and b / 64. */
  lemma BaseFourDigits(b: nat)
    requires b < 256
    ensures b / 4 / 4 == b / 16 && b / 16 / 4 == b / 64 && b / 64 < 4
    ensures b == b % 4 + 4 * (b / 4 % 4) + 16 * (b / 16 % 4) + 64 * (b / 64)
  {
    var q1, r0 := b / 4, b % 4;
    var q2, r1 := q1 / 4, q1 % 4;
    var q3, r2 := q2 / 4, q2 % 4;
    assert b == 64 * q3 + 16 * r2 + 4 * r1 + r0;
    assert b / 16 == q2;
    assert b / 64 == q3;
  }

  lemma BitsOfLowPair(v: nat, n: nat)
    ensures BitsOf(v, n + 2) == BitsOf(v / 4, n) + CodePair(v % 4)
  {
    var q, r := v / 4, v % 4;
    assert v == 4 * q + r;
    assert v / 2 == 2 * q + r / 2;
    assert v / 2 / 2 == q;
    assert v / 2 % 2 == r / 2 && v % 2 == r % 2;
  }

  /** Element i of SplitPairs(s) is the slice s[2i:2i + 2], cut short at the end of s. */
  lemma {:induction false} SplitPairsAt(s: string, i: nat)
    requires i < (|s| + 1) / 2
    ensures SplitPairs(s)[i] == s[2 * i..if 2 * i + 2 <= |s| then 2 * i + 2 else |s|]
    decreases |s|
  {
    var hi := if 2 * i + 2 <= |s| then 2 * i + 2 else |s|;
    if |s| <= 2 {
      assert i == 0 && hi == |s|;
      assert s[0..|s|] == s;
    } else {
      var rest := s[2..];
      assert SplitPairs(s) == [s[..2]] + SplitPairs(rest);
      if i > 0 {
        SplitPairsAt(rest, i - 1);
        var hi' := if 2 * (i - 1) + 2 <= |rest| then 2 * (i - 1) + 2 else |rest|;
        assert hi' + 2 == hi;
        SliceOfTail(s, 2 * (i - 1), hi');
      }
    }
  }

  /** A slice of s[2..] is the slice of s two places further on. */
  lemma SliceOfTail(s: string, lo: nat, hi: nat)
    requires 2 <= |s| && lo <= hi <= |s| - 2
    ensures s[2..][lo..hi] == s[lo + 2..hi + 2]
  {
  }

  lemma {:induction false} SplitPairsSnoc(s: string, p: string)
    requires |s| % 2 == 0 && |p| == 2
    ensures SplitPairs(s + p) == SplitPairs(s) + [p]
    decreases |s|
  {
    if s == [] {
      assert s + p == p;
    } else {
      assert (s + p)[..2] == s[..2] && (s + p)[2..] == s[2..] + p;
      SplitPairsSnoc(s[2..], p);
      if |s| == 2 {
        assert s[..2] == s && s[2..] == [];
      }
    }
  }

  /** Element i of the reversed list is element |s| - 1 - i of the list. */
  lemma {:induction false} ReverseAt<T>(s: seq<T>, i: nat)
    requires i < |s|
    ensures Reverse(s)[i] == s[|s| - 1 - i]
    decreases |s|
  {
    if i < |s| - 1 {
      ReverseAt(s[1..], i);
    }
  }

  lemma {:induction false} ReverseSnoc<T>(s: seq<T>, x: T)
    ensures Reverse(s + [x]) == [x] + Reverse(s)
    decreases |s|
  {
    if s == [] {
      assert Reverse([x]) == Reverse([x][1..]) + [x];
      assert [x][1..] == [];
    } else {
      assert (s + [x])[0] == s[0] && (s + [x])[1..] == s[1..] + [x];
      ReverseSnoc(s[1..], x);
    }
  }

  /** Splitting the fixed-width numeral into pairs and reversing them gives the low pairs first. */
  lemma {:induction false} ReversedPairs(v: nat, k: nat)
    ensures Reverse(SplitPairs(BitsOf(v, 2 * k))) == LowPairs(v, k)
  {
    if k == 0 {
      assert SplitPairs("") == [];
    } else {
      BitsOfLowPair(v, 2 * k - 2);
      SplitPairsSnoc(BitsOf(v / 4, 2 * k - 2), CodePair(v % 4));
      ReverseSnoc(SplitPairs(BitsOf(v / 4, 2 * k - 2)), CodePair(v % 4));
      ReversedPairs(v / 4, k - 1);
    }
  }

  /** One byte through the source's string stages is its four low-first bit pairs. */
  lemma ByteGroups(b: nat)
    requires b < 256
    ensures Reverse(SplitPairs(Bin8(b))) == LowPairs(b, 4)
    ensures Directions(LowPairs(b, 4)) == ByteMoves(b)
  {
    assert Pow2(8) == 256;
    ZFillBinary(b, 8);
    ReversedPairs(b, 4);
    LowPairsDirections(b);
  }

  lemma LowPairsDirections(b: nat)
    requires b < 256
    ensures Directions(LowPairs(b, 4)) == ByteMoves(b)
  {
    BaseFourDigits(b);
    var ps := LowPairs(b, 4);
    assert LowPairs(b / 64, 1) == [CodePair(b / 64)];
    assert LowPairs(b / 16, 2) == [CodePair(b / 16 % 4)] + LowPairs(b / 64, 1);
    assert LowPairs(b / 4, 3) == [CodePair(b / 4 % 4)] + LowPairs(b / 16, 2);
    assert ps == [CodePair(b % 4), CodePair(b / 4 % 4), CodePair(b / 16 % 4), CodePair(b / 64)];
    var p0, p1, p2, p3 := ps[0], ps[1], ps[2], ps[3];
    assert [p0, p1, p2, p3][..3] == [p0, p1, p2];
    assert [p0, p1, p2][..2] == [p0, p1];
    assert [p0, p1][..1] == [p0];
    assert [p0][..0] == [];
    assert Directions([p0]) == [DirectionMap(p0)];
    assert Directions([p0, p1]) == [DirectionMap(p0), DirectionMap(p1)];
    assert Directions([p0, p1, p2]) == [DirectionMap(p0), DirectionMap(p1), DirectionMap(p2)];
  }

  lemma {:induction false} DirectionsAppend(a: seq<string>, b: seq<string>)
    requires forall i :: 0 <= i < |a| ==> IsBitPair(a[i])
    requires forall i :: 0 <= i < |b| ==> IsBitPair(b[i])
    ensures forall i :: 0 <= i < |a + b| ==> IsBitPair((a + b)[i])
    ensures Directions(a + b) == Directions(a) + Directions(b)
    decreases |b|
  {
    if b == [] {
      assert a + b == a;
    } else {
      var b' := b[..|b| - 1];
      DirectionsAppend(a, b');
      assert (a + b)[..|a + b| - 1] == a + b';
    }
  }

  /** The source's three list stages compute the reference decoding. */
  lemma {:induction false} StagesAreReference(hex: string)
    requires IsHexString(hex) && |hex| % 2 == 0
    ensures forall i :: 0 <= i < |PairsOf(BinBytes(hex))| ==> IsBitPair(PairsOf(BinBytes(hex))[i])
    ensures Directions(PairsOf(BinBytes(hex))) == MovesOf(hex)
  {
    if hex != [] {
      var p := hex[..|hex| - 2];
      var b := ParseByte(hex[|hex| - 2], hex[|hex| - 1]);
      StagesAreReference(p);
      ByteGroups(b);
      var bs, bp, last := BinBytes(hex), BinBytes(p), Bin8(b);
      assert bs == bp + [last];
      SnocParts(bp, last);
      var a := PairsOf(bp);
      assert PairsOf(bs) == a + Reverse(SplitPairs(last));
      DirectionsAppend(a, LowPairs(b, 4));
    }
  }

  /**
   * Bit order: decoding reads the bytes left to right and, within a byte,
   * the bit pairs from the lowest to the highest.
   */
  lemma DecodeIsReference(hex: string)
    requires IsHexString(hex) && |hex| % 2 == 0
    ensures Decode(hex) == Ok(MovesOf(hex))
  {
    StagesAreReference(hex);
  }

  /** A one-byte fingerprint decodes to that byte's four moves. */
  lemma OneByteDecode(h: string)
    requires IsHexString(h) && |h| == 2
    ensures Decode(h) == Ok(ByteMoves(ParseByte(h[0], h[1])))
  {
    DecodeIsReference(h);
    MovesOfLastByte(h);
    var ms := ByteMoves(ParseByte(h[0], h[1]));
    assert h[..0] == [] && MovesOf(h[..0]) == [];
    assert [] + ms == ms;
  }

  /** Decoding yields exactly four moves per byte, two per hex digit. */
  lemma DecodeLength(hex: string)
    requires IsHexString(hex) && |hex| % 2 == 0
    ensures Decode(hex).Ok? && |Decode(hex).value| == 2 * |hex|
  {
    DecodeIsReference(hex);
  }

  /** The i-th move is the i-th two-bit group of the input, counted low pair first in each byte. */
  lemma {:induction false} DecodeAt(hex: string, k: nat, j: nat)
    requires IsHexString(hex) && |hex| % 2 == 0
    requires 2 * k + 1 < |hex| && j < 4
    ensures Decode(hex).Ok? && |Decode(hex).value| == 2 * |hex|
    ensures Decode(hex).value[4 * k + j] == ByteMoves(ParseByte(hex[2 * k], hex[2 * k + 1]))[j]
  {
    DecodeIsReference(hex);
    MovesOfAt(hex, k, j);
  }

  lemma {:induction false} MovesOfAt(hex: string, k: nat, j: nat)
    requires IsHexString(hex) && |hex| % 2 == 0
    requires 2 * k + 1 < |hex| && j < 4
    ensures MovesOf(hex)[4 * k + j] == ByteMoves(ParseByte(hex[2 * k], hex[2 * k + 1]))[j]
    decreases |hex|
  {
    var n := |hex|;
    var p := hex[..n - 2];
    MovesOfLastByte(hex);
    ByteIndex(k, n);
    if 2 * k + 2 < n {
      MovesOfAt(p, k, j);
      assert p[2 * k] == hex[2 * k] && p[2 * k + 1] == hex[2 * k + 1];
      assert MovesOf(hex)[4 * k + j] == MovesOf(p)[4 * k + j];
    } else {
      assert 4 * k + j == |MovesOf(p)| + j;
    }
  }

  /** Bytes keep their order: decoding distributes over concatenation. */
  lemma {:induction false} MovesOfAppend(a: string, b: string)
    requires IsHexString(a) && IsHexString(b) && |a| % 2 == 0 && |b| % 2 == 0
    ensures IsHexString(a + b)
    ensures MovesOf(a + b) == MovesOf(a) + MovesOf(b)
    decreases |b|
  {
    HexStringConcat(a, b);
    if |b| < 2 {
      assert b == [] && a + b == a;
    } else {
      var b' := b[..|b| - 2];
      ConcatLastByte(a, b);
      MovesOfLastByte(b);
      MovesOfAppend(a, b');
      AppendAssoc(MovesOf(a), MovesOf(b'), ByteMoves(ParseByte(b[|b| - 2], b[|b| - 1])));
    }
  }

  lemma AppendAssoc<T>(x: seq<T>, y: seq<T>, z: seq<T>)
    ensures (x + y) + z == x + (y + z)
  {
  }

  /** The last byte of a + b is the last byte of b. */
  lemma ConcatLastByte(a: string, b: string)
    requires IsHexString(a) && IsHexString(b) && |a| % 2 == 0 && |b| % 2 == 0 && |b| >= 2
    ensures IsHexString(a + b) && |a + b| % 2 == 0
    ensures MovesOf(a + b) == MovesOf(a + b[..|b| - 2]) + ByteMoves(ParseByte(b[|b| - 2], b[|b| - 1]))
  {
    var ab := a + b;
    HexStringConcat(a, b);
    EvenLengths(|a|, |b|);
    MovesOfLastByte(ab);
    assert ab[..|ab| - 2] == a + b[..|b| - 2];
    assert ab[|ab| - 2] == b[|b| - 2] && ab[|ab| - 1] == b[|b| - 1];
  }

  /** The reference decoding ends with the moves of the last byte. */
  lemma MovesOfLastByte(hex: string)
    requires IsHexString(hex) && |hex| % 2 == 0 && |hex| >= 2
    ensures IsHexString(hex[..|hex| - 2]) && (|hex| - 2) % 2 == 0
    ensures MovesOf(hex) == MovesOf(hex[..|hex| - 2]) + ByteMoves(ParseByte(hex[|hex| - 2], hex[|hex| - 1]))
  {
    HexStringPrefix(hex, |hex| - 2);
    EvenLengths(0, |hex|);
  }

  /** Byte k of an even-length string is the last byte or lies wholly before it. */
  lemma ByteIndex(k: nat, n: nat)
    requires n % 2 == 0 && 2 * k + 1 < n
    ensures 2 * k + 2 == n || 2 * k + 4 <= n
  {
    assert n == 2 * (n / 2);
  }

  /** Lengths of whole bytes stay even under concatenation and removing the last byte. */
  lemma EvenLengths(x: nat, y: nat)
    requires x % 2 == 0 && y % 2 == 0 && y >= 2
    ensures (x + y) % 2 == 0 && (x + y - 2) % 2 == 0 && (y - 2) % 2 == 0
  {
    assert x == 2 * (x / 2) && y == 2 * (y / 2);
  }

  /** An even index below an even length leaves room for a whole byte. */
  lemma EvenBelow(i: nat, n: nat)
    requires i % 2 == 0 && n % 2 == 0 && i < n
    ensures i + 2 <= n
  {
    assert i == 2 * (i / 2) && n == 2 * (n / 2);
  }

  lemma HexStringPrefix(s: string, k: nat)
    requires IsHexString(s) && k <= |s|
    ensures IsHexString(s[..k])
  {
    forall i | 0 <= i < k ensures IsHexDigit(s[..k][i]) {
      assert s[..k][i] == s[i];
    }
  }

  lemma DecodeAppend(a: string, b: string)
    requires IsHexString(a) && IsHexString(b) && |a| % 2 == 0 && |b| % 2 == 0
    ensures IsHexString(a + b)
    ensures Decode(a + b) == Ok(Decode(a).value + Decode(b).value)
  {
    var ab := a + b;
    assert IsHexString(ab) && |ab| % 2 == 0;
    MovesOfAppend(a, b);
    DecodeIsReference(a);
    DecodeIsReference(b);
    DecodeIsReference(ab);
  }

  /** The four moves of a byte determine the byte. */
  lemma ByteRoundTrip(b: nat)
    requires b < 256
    ensures EncodeByte(ByteMoves(b)) == b
  {
    BaseFourDigits(b);
    CodeRoundTrip(b % 4);
    CodeRoundTrip(b / 4 % 4);
    CodeRoundTrip(b / 16 % 4);
    CodeRoundTrip(b / 64);
  }

  lemma MovesRoundTrip(ms: seq<Move>)
    requires |ms| == 4
    ensures ByteMoves(EncodeByte(ms)) == ms
  {
    var c0, c1, c2, c3 := CodeOf(ms[0]), CodeOf(ms[1]), CodeOf(ms[2]), CodeOf(ms[3]);
    var b := EncodeByte(ms);
    assert b == 4 * (c1 + 4 * c2 + 16 * c3) + c0;
    assert b / 4 == c1 + 4 * c2 + 16 * c3 && b % 4 == c0;
    assert b / 4 % 4 == c1;
    assert b == 16 * (c2 + 4 * c3) + (4 * c1 + c0);
    assert b / 16 == c2 + 4 * c3;
    assert b / 16 % 4 == c2;
    assert b == 64 * c3 + (16 * c2 + 4 * c1 + c0);
    assert b / 64 == c3;
  }

  lemma ByteMovesInjective(a: nat, b: nat)
    requires a < 256 && b < 256 && ByteMoves(a) == ByteMoves(b)
    ensures a == b
  {
    ByteRoundTrip(a);
    ByteRoundTrip(b);
  }

  lemma HexByteRoundTrip(b: nat)
    requires b < 256
    ensures ParseByte(HexDigit(b / 16), HexDigit(b % 16)) == b
  {
    HexDigitValue(b / 16);
    HexDigitValue(b % 16);
  }

  lemma HexDigitValue(v: nat)
    requires v < 16
    ensures IsHexDigit(HexDigit(v)) && HexValue(HexDigit(v)) == v
  {
  }

  lemma SnocParts<T>(s: seq<T>, x: T)
    ensures (s + [x])[..|s|] == s && (s + [x])[|s|] == x
  {
  }

  lemma SplitAt<T>(s: seq<T>, k: nat)
    requires k <= |s|
    ensures s[..k] + s[k..] == s
  {
  }

  lemma {:induction false} MovesOfEncodeHex(ms: seq<Move>)
    requires |ms| % 4 == 0
    ensures MovesOf(EncodeHex(ms)) == ms
    decreases |ms|
  {
    if ms != [] {
      var rest, last := ms[..|ms| - 4], ms[|ms| - 4..];
      var b := EncodeByte(last);
      var h0 := EncodeHex(rest);
      MovesOfEncodeHex(rest);
      assert EncodeHex(ms) == h0 + [HexDigit(b / 16), HexDigit(b % 16)];
      MovesOfSnocByte(h0, b);
      MovesRoundTrip(last);
      SplitAt(ms, |ms| - 4);
    }
  }

  /** Appending the two digits of a byte appends that byte's four moves. */
  lemma MovesOfSnocByte(h: string, b: nat)
    requires IsHexString(h) && |h| % 2 == 0 && b < 256
    ensures IsHexString(h + [HexDigit(b / 16), HexDigit(b % 16)])
    ensures MovesOf(h + [HexDigit(b / 16), HexDigit(b % 16)]) == MovesOf(h) + ByteMoves(b)
  {
    var d := [HexDigit(b / 16), HexDigit(b % 16)];
    var hex := h + d;
    HexStringConcat(h, d);
    assert hex[..|hex| - 2] == h;
    assert hex[|hex| - 2] == d[0] && hex[|hex| - 1] == d[1];
    HexByteRoundTrip(b);
  }

  /** Every sequence of whole bytes' worth of moves is the decoding of some fingerprint. */
  lemma EncodeDecode(ms: seq<Move>)
    requires |ms| % 4 == 0
    ensures Decode(EncodeHex(ms)) == Ok(ms)
  {
    MovesOfEncodeHex(ms);
    DecodeIsReference(EncodeHex(ms));
  }

  // --------------------------------------------------------------- the method

  lemma BinBytesSnoc(hex: string, i: nat)
    requires IsHexString(hex) && i % 2 == 0 && i + 2 <= |hex|
    ensures IsHexString(hex[..i]) && IsHexString(hex[..i + 2])
    ensures BinBytes(hex[..i + 2]) == BinBytes(hex[..i]) + [Bin8(ParseByte(hex[i], hex[i + 1]))]
  {
    assert hex[..i + 2][..i] == hex[..i];
  }

  lemma PairsOfSnoc(binBytes: seq<string>, j: nat)
    requires j < |binBytes|
    ensures PairsOf(binBytes[..j + 1]) == PairsOf(binBytes[..j]) + Reverse(SplitPairs(binBytes[j]))
  {
    assert binBytes[..j + 1][..j] == binBytes[..j];
  }

  /** hex_to_dirs, stage by stage as the source builds its lists. */
  method HexToDirs(hex: string) returns (r: Result<seq<Move>, DecodeError>)
    requires IsHexString(hex)
    ensures r == Decode(hex)
  {
    if |hex| % 2 != 0 {
      return Err(OddLength);
    }
    var binBytes: seq<string> := [];
    var i := 0;
    while i < |hex|
      invariant 0 <= i <= |hex| && i % 2 == 0
      invariant binBytes == BinBytes(hex[..i])
    {
      EvenBelow(i, |hex|);
      var decimal := ParseByte(hex[i], hex[i + 1]);
      binBytes := binBytes + [Bin8(decimal)];
      BinBytesSnoc(hex, i);
      i := i + 2;
    }
    assert hex[..i] == hex;
    var pairs: seq<string> := [];
    var j := 0;
    while j < |binBytes|
      invariant 0 <= j <= |binBytes|
      invariant pairs == PairsOf(binBytes[..j])
    {
      var byteSplit := SplitPairs(binBytes[j]);
      byteSplit := Reverse(byteSplit);
      pairs := pairs + byteSplit;
      PairsOfSnoc(binBytes, j);
      j := j + 1;
    }
    assert binBytes[..j] == binBytes;
    StagesAreReference(hex);
    r := Ok(Directions(pairs));
  }
}
