/**
 * Base64 as ksv uses it through Go's encoding/base64 StdEncoding: the
 * standard alphabet of section 4 of RFC 4648 (A-Z a-z 0-9 + /) with '='
 * padding as in section 3.2.
 *
 * Encoding is total. Decoding follows Go's lenient decoder: carriage returns
 * and line feeds are skipped wherever they occur, the bits that padding drops
 * are not required to be zero (section 3.5 of RFC 4648 is not enforced), and
 * on malformed input the decoder reports failure but still hands back the
 * bytes of every group of four it decoded before the fault.
 */
module Base64 {

  type byte = b: int | 0 <= b < 256

  type Bytes = seq<byte>

  const Pad: byte := 61  // '='
  const LF: byte := 10   // '\n'
  const CR: byte := 13   // '\r'

  /** Go's decodeMap: the 6-bit value an alphabet byte stands for, and -1
      (Go's 0xFF) for every byte outside the alphabet. */
  function DecodeValue(c: byte): (v: int)
    ensures -1 <= v < 64
  {
    if 65 <= c <= 90 then c - 65        // 'A'..'Z' -> 0..25
    else if 97 <= c <= 122 then c - 71  // 'a'..'z' -> 26..51
    else if 48 <= c <= 57 then c + 4    // '0'..'9' -> 52..61
    else if c == 43 then 62             // '+'
    else if c == 47 then 63             // '/'
    else -1
  }

  /** The 64 bytes of the standard alphabet. */
  predicate IsSymbol(c: byte) {
    DecodeValue(c) >= 0
  }

  /** The 6-bit value of an alphabet byte. */
  function SymbolValue(c: byte): (v: int)
    requires IsSymbol(c)
    ensures 0 <= v < 64
  {
    DecodeValue(c)
  }

  /** The alphabet byte for a 6-bit value; SymbolValue undoes it. */
  function Symbol(v: int): (c: byte)
    requires 0 <= v < 64
    ensures IsSymbol(c) && SymbolValue(c) == v
  {
    if v < 26 then 65 + v
    else if v < 52 then 71 + v
    else if v < 62 then v - 4
    else if v == 62 then 43
    else 47
  }

  /** Number of '=' bytes that end the encoding of n bytes. */
  function PadCount(n: nat): nat {
    (3 - n % 3) % 3
  }

  // ---------------------------------------------------------------- encoding

  /** Three bytes (24 bits) as four alphabet bytes, most significant first. */
  function EncodeQuantum(a: byte, b: byte, c: byte): Bytes {
    [Symbol(a / 4), Symbol((a % 4) * 16 + b / 16), Symbol((b % 16) * 4 + c / 64), Symbol(c % 64)]
  }

  /** EncodeToString: every full group of three bytes becomes four symbols; a
      final group of one or two bytes is zero-filled and padded with '='. */
  function Encode(s: Bytes): (r: Bytes)
    ensures |r| == 4 * ((|s| + 2) / 3)
    decreases |s|
  {
    if |s| == 0 then []
    else if |s| == 1 then [Symbol(s[0] / 4), Symbol((s[0] % 4) * 16), Pad, Pad]
    else if |s| == 2 then [Symbol(s[0] / 4), Symbol((s[0] % 4) * 16 + s[1] / 16), Symbol((s[1] % 16) * 4), Pad]
    else EncodeQuantum(s[0], s[1], s[2]) + Encode(s[3..])
  }

  // ---------------------------------------------------------------- decoding

  /** What DecodeString hands back: the bytes it produced, and whether it
      reported no error. */
  datatype Decoded = Decoded(bytes: Bytes, ok: bool)

  /** The input with every '\r' and '\n' removed; the decoder ignores them. */
  function StripNewlines(s: Bytes): (r: Bytes)
    ensures |r| <= |s|
    ensures forall i :: 0 <= i < |r| ==> r[i] != LF && r[i] != CR
  {
    if |s| == 0 then []
    else if s[0] == LF || s[0] == CR then StripNewlines(s[1..])
    else [s[0]] + StripNewlines(s[1..])
  }

  /** The 24 bits of four alphabet bytes as three bytes. */
  function DecodeQuantum(c0: byte, c1: byte, c2: byte, c3: byte): Bytes
    requires IsSymbol(c0) && IsSymbol(c1) && IsSymbol(c2) && IsSymbol(c3)
  {
    var v0, v1, v2, v3 := SymbolValue(c0), SymbolValue(c1), SymbolValue(c2), SymbolValue(c3);
    [v0 * 4 + v1 / 16, (v1 % 16) * 16 + v2 / 4, (v2 % 4) * 64 + v3]
  }

  /** Go's quantum-by-quantum decoding of newline-free input. A group of four
      symbols yields three bytes and decoding goes on. "xx==" and "xxx=" yield
      one and two bytes (the dropped low bits are ignored) and end decoding:
      anything after them is an error, but those bytes are still handed back.
      Any other group (a bad byte, misplaced padding, fewer than four bytes
      left) is an error and yields nothing. */
  function DecodeQuanta(s: Bytes): (d: Decoded)
    decreases |s|
  {
    if |s| == 0 then Decoded([], true)
    else if |s| < 4 || !IsSymbol(s[0]) || !IsSymbol(s[1]) then Decoded([], false)
    else if IsSymbol(s[2]) && IsSymbol(s[3]) then
      var rest := DecodeQuanta(s[4..]);
      Decoded(DecodeQuantum(s[0], s[1], s[2], s[3]) + rest.bytes, rest.ok)
    else if s[2] == Pad && s[3] == Pad then
      Decoded([SymbolValue(s[0]) * 4 + SymbolValue(s[1]) / 16], |s| == 4)
    else if IsSymbol(s[2]) && s[3] == Pad then
      var v0, v1, v2 := SymbolValue(s[0]), SymbolValue(s[1]), SymbolValue(s[2]);
      Decoded([v0 * 4 + v1 / 16, (v1 % 16) * 16 + v2 / 4], |s| == 4)
    else Decoded([], false)
  }

  /** base64.StdEncoding.DecodeString: at most three bytes per four input
      bytes, and no error only when the input without line breaks is whole
      groups of four. */
  function Decode(s: Bytes): (r: Decoded)
    ensures 4 * |r.bytes| <= 3 * |s|
    ensures r.ok ==> |StripNewlines(s)| % 4 == 0
  {
    DecodeQuantaBounds(StripNewlines(s));
    DecodeQuanta(StripNewlines(s))
  }

  /** The decoder hands back at most three bytes for every four it reads,
      and reports no error only on whole groups of four. */
  lemma {:induction false} DecodeQuantaBounds(s: Bytes)
    ensures 4 * |DecodeQuanta(s).bytes| <= 3 * |s|
    ensures DecodeQuanta(s).ok ==> |s| % 4 == 0
    decreases |s|
  {
    if |s| >= 4 && IsSymbol(s[0]) && IsSymbol(s[1]) && IsSymbol(s[2]) && IsSymbol(s[3]) {
      DecodeQuantaBounds(s[4..]);
    }
  }

  /** The exact image of Encode: groups of four alphabet bytes, padding only in
      the last group, and the bits that padding drops all zero. */
  predicate Canonical(y: Bytes)
    decreases |y|
  {
    if |y| == 0 then true
    else if |y| < 4 || !IsSymbol(y[0]) || !IsSymbol(y[1]) then false
    else if IsSymbol(y[2]) && IsSymbol(y[3]) then Canonical(y[4..])
    else if y[2] == Pad && y[3] == Pad then |y| == 4 && SymbolValue(y[1]) % 16 == 0
    else IsSymbol(y[2]) && y[3] == Pad && |y| == 4 && SymbolValue(y[2]) % 4 == 0
  }

  // ---------------------------------------------------------------- lemmas

  lemma ModThree(n: nat)
    requires n >= 3
    ensures (n - 3) % 3 == n % 3 && PadCount(n - 3) == PadCount(n)
  {
  }

  /** Every encoded byte is an alphabet symbol except the trailing padding,
      which is two '=' after one leftover byte, one after two, none otherwise. */
  lemma {:induction false} EncodeAlphabet(s: Bytes)
    ensures forall i :: 0 <= i < |Encode(s)| ==>
      if i < |Encode(s)| - PadCount(|s|) then IsSymbol(Encode(s)[i]) else Encode(s)[i] == Pad
    decreases |s|
  {
    if |s| >= 3 {
      EncodeAlphabet(s[3..]);
      ModThree(|s|);
      var q := EncodeQuantum(s[0], s[1], s[2]);
      assert Encode(s) == q + Encode(s[3..]);
      forall i | 0 <= i < |Encode(s)|
        ensures if i < |Encode(s)| - PadCount(|s|) then IsSymbol(Encode(s)[i]) else Encode(s)[i] == Pad
      {
        if i >= 4 {
          assert Encode(s)[i] == Encode(s[3..])[i - 4];
        }
      }
    }
  }

  /** An encoding holds no line breaks, so the decoder sees all of it. */
  lemma EncodeHasNoNewlines(s: Bytes)
    ensures StripNewlines(Encode(s)) == Encode(s)
  {
    EncodeAlphabet(s);
    NoNewlinesStripped(Encode(s));
  }

  lemma {:induction false} NoNewlinesStripped(s: Bytes)
    requires forall i :: 0 <= i < |s| ==> s[i] != LF && s[i] != CR
    ensures StripNewlines(s) == s
    decreases |s|
  {
    if |s| > 0 {
      NoNewlinesStripped(s[1..]);
      assert [s[0]] + s[1..] == s;
    }
  }

  lemma {:induction false} StripAppend(a: Bytes, b: Bytes)
    ensures StripNewlines(a + b) == StripNewlines(a) + StripNewlines(b)
    decreases |a|
  {
    if |a| > 0 {
      assert (a + b)[1..] == a[1..] + b;
      StripAppend(a[1..], b);
    } else {
      assert a + b == b;
    }
  }

  /** Decoding a full quantum gives back the three bytes it encodes. */
  lemma QuantumRoundTrip(a: byte, b: byte, c: byte)
    ensures var q := EncodeQuantum(a, b, c);
      DecodeQuantum(q[0], q[1], q[2], q[3]) == [a, b, c]
  {
    var q := EncodeQuantum(a, b, c);
    assert SymbolValue(q[0]) * 4 + SymbolValue(q[1]) / 16 == a;
    assert (SymbolValue(q[1]) % 16) * 16 + SymbolValue(q[2]) / 4 == b;
    assert (SymbolValue(q[2]) % 4) * 64 + SymbolValue(q[3]) == c;
  }

  /** Decoding the padded encoding of one byte gives the byte back, and an
      error exactly when something follows the padding. */
  lemma OneByteRoundTrip(a: byte, tail: Bytes)
    ensures DecodeQuanta(Encode([a]) + tail) == Decoded([a], tail == [])
  {
    var e := Encode([a]) + tail;
    var c0, c1 := Symbol(a / 4), Symbol((a % 4) * 16);
    assert e[..4] == [c0, c1, Pad, Pad];
    assert SymbolValue(c0) * 4 + SymbolValue(c1) / 16 == a;
  }

  /** The same for the padded encoding of two bytes. */
  lemma TwoBytesRoundTrip(a: byte, b: byte, tail: Bytes)
    ensures DecodeQuanta(Encode([a, b]) + tail) == Decoded([a, b], tail == [])
  {
    var e := Encode([a, b]) + tail;
    var c0, c1, c2 := Symbol(a / 4), Symbol((a % 4) * 16 + b / 16), Symbol((b % 16) * 4);
    assert e[..4] == [c0, c1, c2, Pad];
    var v0, v1, v2 := SymbolValue(c0), SymbolValue(c1), SymbolValue(c2);
    assert v0 * 4 + v1 / 16 == a;
    assert (v1 % 16) * 16 + v2 / 4 == b;
  }

  /** One full quantum at the front of the input is decoded and the rest
      follows. */
  lemma FullQuantumFirst(a: byte, b: byte, c: byte, more: Bytes)
    ensures DecodeQuanta(EncodeQuantum(a, b, c) + more)
      == Decoded([a, b, c] + DecodeQuanta(more).bytes, DecodeQuanta(more).ok)
  {
    var q := EncodeQuantum(a, b, c);
    assert (q + more)[4..] == more;
    QuantumRoundTrip(a, b, c);
  }

  /** What the decoder makes of an encoding followed by anything: after
      whole groups of three bytes it goes on into what follows; after a padded
      group it stops, with an error exactly when something follows. */
  lemma {:induction false} DecodeQuantaAfterEncode(s: Bytes, tail: Bytes)
    ensures DecodeQuanta(Encode(s) + tail)
      == if |s| % 3 == 0 then Decoded(s + DecodeQuanta(tail).bytes, DecodeQuanta(tail).ok)
         else Decoded(s, tail == [])
    decreases |s|
  {
    if |s| < 3 {
      ShortAfterEncode(s, tail);
    } else {
      DecodeQuantaAfterEncode(s[3..], tail);
      QuantumThenRest(s, tail);
    }
  }

  /** The base cases of DecodeQuantaAfterEncode: nothing, one or two bytes. */
  lemma ShortAfterEncode(s: Bytes, tail: Bytes)
    requires |s| < 3
    ensures DecodeQuanta(Encode(s) + tail)
      == if |s| % 3 == 0 then Decoded(s + DecodeQuanta(tail).bytes, DecodeQuanta(tail).ok)
         else Decoded(s, tail == [])
  {
    if |s| == 0 {
      NothingAfterEncode(s, tail);
    } else if |s| == 1 {
      OneAfterEncode(s, tail);
    } else {
      TwoAfterEncode(s, tail);
    }
  }

  lemma NothingAfterEncode(s: Bytes, tail: Bytes)
    requires |s| == 0
    ensures DecodeQuanta(Encode(s) + tail)
      == if |s| % 3 == 0 then Decoded(s + DecodeQuanta(tail).bytes, DecodeQuanta(tail).ok)
         else Decoded(s, tail == [])
  {
    assert Encode(s) + tail == tail;
    assert s + DecodeQuanta(tail).bytes == DecodeQuanta(tail).bytes;
  }

  lemma OneAfterEncode(s: Bytes, tail: Bytes)
    requires |s| == 1
    ensures DecodeQuanta(Encode(s) + tail)
      == if |s| % 3 == 0 then Decoded(s + DecodeQuanta(tail).bytes, DecodeQuanta(tail).ok)
         else Decoded(s, tail == [])
  {
    assert s == [s[0]];
    OneByteRoundTrip(s[0], tail);
  }

  lemma TwoAfterEncode(s: Bytes, tail: Bytes)
    requires |s| == 2
    ensures DecodeQuanta(Encode(s) + tail)
      == if |s| % 3 == 0 then Decoded(s + DecodeQuanta(tail).bytes, DecodeQuanta(tail).ok)
         else Decoded(s, tail == [])
  {
    assert s == [s[0], s[1]];
    TwoBytesRoundTrip(s[0], s[1], tail);
  }

  /** The inductive step of DecodeQuantaAfterEncode: the first three bytes
      come out of the first quantum, the rest as the shorter input gives. */
  lemma QuantumThenRest(s: Bytes, tail: Bytes)
    requires |s| >= 3
    requires DecodeQuanta(Encode(s[3..]) + tail)
      == if |s[3..]| % 3 == 0 then Decoded(s[3..] + DecodeQuanta(tail).bytes, DecodeQuanta(tail).ok)
         else Decoded(s[3..], tail == [])
    ensures DecodeQuanta(Encode(s) + tail)
      == if |s| % 3 == 0 then Decoded(s + DecodeQuanta(tail).bytes, DecodeQuanta(tail).ok)
         else Decoded(s, tail == [])
  {
    var more := Encode(s[3..]) + tail;
    var d := DecodeQuanta(more);
    assert Encode(s) + tail == EncodeQuantum(s[0], s[1], s[2]) + more by {
      EncodeFront(s, tail);
    }
    FullQuantumFirst(s[0], s[1], s[2], more);
    Combine(s, DecodeQuanta(Encode(s) + tail), d, DecodeQuanta(tail), tail == []);
  }

  /** The bookkeeping of the inductive step, over plain values. */
  lemma Combine(s: Bytes, x: Decoded, d: Decoded, rest: Decoded, tailEmpty: bool)
    requires |s| >= 3
    requires x == Decoded([s[0], s[1], s[2]] + d.bytes, d.ok)
    requires d == if |s[3..]| % 3 == 0 then Decoded(s[3..] + rest.bytes, rest.ok) else Decoded(s[3..], tailEmpty)
    ensures x == if |s| % 3 == 0 then Decoded(s + rest.bytes, rest.ok) else Decoded(s, tailEmpty)
  {
    ModThree(|s|);
    SplitThree(s, rest.bytes);
  }

  lemma EncodeFront(s: Bytes, tail: Bytes)
    requires |s| >= 3
    ensures Encode(s) + tail == EncodeQuantum(s[0], s[1], s[2]) + (Encode(s[3..]) + tail)
  {
    var q, r := EncodeQuantum(s[0], s[1], s[2]), Encode(s[3..]);
    assert Encode(s) == q + r;
    Associative(q, r, tail);
  }

  lemma Associative<T>(a: seq<T>, b: seq<T>, c: seq<T>)
    ensures (a + b) + c == a + (b + c)
  {
  }

  lemma SplitThree(s: Bytes, rest: Bytes)
    requires |s| >= 3
    ensures [s[0], s[1], s[2]] + s[3..] == s
    ensures [s[0], s[1], s[2]] + (s[3..] + rest) == s + rest
  {
    assert [s[0], s[1], s[2]] == s[..3];
  }

  /** Round trip: decoding an encoding gives back exactly the original bytes. */
  lemma DecodeEncode(s: Bytes)
    ensures Decode(Encode(s)) == Decoded(s, true)
  {
    EncodeHasNoNewlines(s);
    DecodeQuantaAfterEncode(s, []);
    assert Encode(s) + [] == Encode(s);
  }

  /** A malformed tail never takes away what came before it: after an
      encoding followed by arbitrary bytes, the decoded result still starts
      with the encoded bytes. */
  lemma PrefixSurvivesMalformedTail(s: Bytes, tail: Bytes)
    ensures |s| <= |Decode(Encode(s) + tail).bytes|
    ensures Decode(Encode(s) + tail).bytes[..|s|] == s
  {
    StripAppend(Encode(s), tail);
    EncodeHasNoNewlines(s);
    DecodeQuantaAfterEncode(s, StripNewlines(tail));
  }

  /** Whatever Encode produces is canonical. */
  lemma {:induction false} EncodeCanonical(s: Bytes)
    ensures Canonical(Encode(s))
    decreases |s|
  {
    if |s| >= 3 {
      var q := EncodeQuantum(s[0], s[1], s[2]);
      assert (q + Encode(s[3..]))[4..] == Encode(s[3..]);
      EncodeCanonical(s[3..]);
    }
  }

  /** A canonical value decodes without error and re-encodes to itself. */
  lemma {:induction false} CanonicalReencodes(y: Bytes)
    requires Canonical(y)
    ensures Decode(y).ok && Encode(Decode(y).bytes) == y
    decreases |y|
  {
    NoNewlinesCanonical(y);
    NoNewlinesStripped(y);
    CanonicalQuanta(y);
  }

  lemma {:induction false} NoNewlinesCanonical(y: Bytes)
    requires Canonical(y)
    ensures forall i :: 0 <= i < |y| ==> y[i] != LF && y[i] != CR
    decreases |y|
  {
    if |y| > 0 && IsSymbol(y[2]) && IsSymbol(y[3]) {
      NoNewlinesCanonical(y[4..]);
      forall i | 4 <= i < |y| ensures y[i] != LF && y[i] != CR {
        assert y[i] == y[4..][i - 4];
      }
    }
  }

  lemma SymbolOfValue(c: byte)
    requires IsSymbol(c)
    ensures Symbol(SymbolValue(c)) == c
  {
  }

  /** Re-encoding the three bytes of a group of four symbols gives the group. */
  lemma QuantumReencodes(c0: byte, c1: byte, c2: byte, c3: byte)
    requires IsSymbol(c0) && IsSymbol(c1) && IsSymbol(c2) && IsSymbol(c3)
    ensures var b := DecodeQuantum(c0, c1, c2, c3);
      EncodeQuantum(b[0], b[1], b[2]) == [c0, c1, c2, c3]
  {
    var v0, v1, v2, v3 := SymbolValue(c0), SymbolValue(c1), SymbolValue(c2), SymbolValue(c3);
    var b := DecodeQuantum(c0, c1, c2, c3);
    assert b[0] / 4 == v0;
    assert (b[0] % 4) * 16 + b[1] / 16 == v1;
    assert (b[1] % 16) * 4 + b[2] / 64 == v2;
    assert b[2] % 64 == v3;
    SymbolOfValue(c0);
    SymbolOfValue(c1);
    SymbolOfValue(c2);
    SymbolOfValue(c3);
  }

  lemma OneByteReencodes(c0: byte, c1: byte)
    requires IsSymbol(c0) && IsSymbol(c1) && SymbolValue(c1) % 16 == 0
    ensures var b := SymbolValue(c0) * 4 + SymbolValue(c1) / 16;
      0 <= b < 256 && Encode([b]) == [c0, c1, Pad, Pad]
  {
    var v0, v1 := SymbolValue(c0), SymbolValue(c1);
    var b := v0 * 4 + v1 / 16;
    assert b / 4 == v0;
    assert (b % 4) * 16 == v1;
    SymbolOfValue(c0);
    SymbolOfValue(c1);
  }

  lemma TwoBytesReencode(c0: byte, c1: byte, c2: byte)
    requires IsSymbol(c0) && IsSymbol(c1) && IsSymbol(c2) && SymbolValue(c2) % 4 == 0
    ensures var v0, v1, v2 := SymbolValue(c0), SymbolValue(c1), SymbolValue(c2);
      var a, b := v0 * 4 + v1 / 16, (v1 % 16) * 16 + v2 / 4;
      0 <= a < 256 && 0 <= b < 256 && Encode([a, b]) == [c0, c1, c2, Pad]
  {
    var v0, v1, v2 := SymbolValue(c0), SymbolValue(c1), SymbolValue(c2);
    var a, b := v0 * 4 + v1 / 16, (v1 % 16) * 16 + v2 / 4;
    assert a / 4 == v0;
    assert (a % 4) * 16 + b / 16 == v1;
    assert (b % 16) * 4 == v2;
    SymbolOfValue(c0);
    SymbolOfValue(c1);
    SymbolOfValue(c2);
  }

  lemma FullQuantumStep(y: Bytes)
    requires |y| >= 4 && IsSymbol(y[0]) && IsSymbol(y[1]) && IsSymbol(y[2]) && IsSymbol(y[3])
    requires DecodeQuanta(y[4..]).ok && Encode(DecodeQuanta(y[4..]).bytes) == y[4..]
    ensures DecodeQuanta(y).ok && Encode(DecodeQuanta(y).bytes) == y
  {
    var b := DecodeQuantum(y[0], y[1], y[2], y[3]);
    var rest := DecodeQuanta(y[4..]).bytes;
    assert DecodeQuanta(y) == Decoded(b + rest, true);
    assert (b + rest)[3..] == rest;
    assert Encode(b + rest) == EncodeQuantum(b[0], b[1], b[2]) + Encode(rest);
    QuantumReencodes(y[0], y[1], y[2], y[3]);
    assert y == [y[0], y[1], y[2], y[3]] + y[4..];
  }

  lemma {:induction false} CanonicalQuanta(y: Bytes)
    requires Canonical(y)
    ensures DecodeQuanta(y).ok && Encode(DecodeQuanta(y).bytes) == y
    decreases |y|
  {
    if |y| == 0 {
    } else if IsSymbol(y[2]) && IsSymbol(y[3]) {
      CanonicalQuanta(y[4..]);
      FullQuantumStep(y);
    } else if y[2] == Pad && y[3] == Pad {
      OnePaddedGroup(y);
    } else {
      TwoPaddedGroup(y);
    }
  }

  lemma OnePaddedGroup(y: Bytes)
    requires |y| == 4 && IsSymbol(y[0]) && IsSymbol(y[1]) && y[2] == Pad && y[3] == Pad
    requires SymbolValue(y[1]) % 16 == 0
    ensures DecodeQuanta(y).ok && Encode(DecodeQuanta(y).bytes) == y
  {
    OneByteReencodes(y[0], y[1]);
    PaddedSingleDecodes(y);
    assert y == [y[0], y[1], Pad, Pad];
  }

  lemma PaddedSingleDecodes(y: Bytes)
    requires |y| == 4 && IsSymbol(y[0]) && IsSymbol(y[1]) && y[2] == Pad && y[3] == Pad
    ensures DecodeQuanta(y) == Decoded([SymbolValue(y[0]) * 4 + SymbolValue(y[1]) / 16], true)
  {
  }

  lemma TwoPaddedGroup(y: Bytes)
    requires |y| == 4 && IsSymbol(y[0]) && IsSymbol(y[1]) && IsSymbol(y[2]) && y[3] == Pad
    requires SymbolValue(y[2]) % 4 == 0
    ensures DecodeQuanta(y).ok && Encode(DecodeQuanta(y).bytes) == y
  {
    var v0, v1, v2 := SymbolValue(y[0]), SymbolValue(y[1]), SymbolValue(y[2]);
    var a, b := v0 * 4 + v1 / 16, (v1 % 16) * 16 + v2 / 4;
    TwoBytesReencode(y[0], y[1], y[2]);
    PaddedPairDecodes(y);
    assert y == [y[0], y[1], y[2], Pad];
  }

  lemma PaddedPairDecodes(y: Bytes)
    requires |y| == 4 && IsSymbol(y[0]) && IsSymbol(y[1]) && IsSymbol(y[2]) && y[3] == Pad
    ensures var v0, v1, v2 := SymbolValue(y[0]), SymbolValue(y[1]), SymbolValue(y[2]);
      DecodeQuanta(y) == Decoded([v0 * 4 + v1 / 16, (v1 % 16) * 16 + v2 / 4], true)
  {
  }

  /** Re-encoding a decoded value gives the value back exactly when the value
      is canonical; the lenient decoder makes the other direction fail. */
  lemma ReencodeIffCanonical(y: Bytes)
    ensures Encode(Decode(y).bytes) == y <==> Canonical(y)
  {
    if Canonical(y) {
      CanonicalReencodes(y);
    } else {
      EncodeCanonical(Decode(y).bytes);
    }
  }

  /** "QR==" is accepted and decodes to "A", whose encoding is "QQ==": the
      decoder ignores the non-zero bits that padding drops. */
  lemma NonCanonicalAccepted()
    ensures Decode([81, 82, 61, 61]) == Decoded([65], true)
    ensures Encode([65]) == [81, 81, 61, 61]
  {
    NoNewlinesStripped([81, 82, 61, 61]);
    assert SymbolValue(81) == 16 && SymbolValue(82) == 17;
  }

  /** A malformed value decodes to the prefix decoded before the fault, not to
      nothing: "YWRt!" gives "adm" with an error. */
  lemma MalformedKeepsPrefix()
    ensures Decode([89, 87, 82, 116, 33]) == Decoded([97, 100, 109], false)
  {
    var s: Bytes := [89, 87, 82, 116, 33];
    NoNewlinesStripped(s);
    AdmGroup();
    SymbolGroupFirst(s);
    assert s[4..] == [33];
    assert DecodeQuanta([33]) == Decoded([], false);
  }

  /** After padding, trailing bytes are an error, yet the padded group's bytes
      are still handed back: "YWRtaW4=x" gives "admin" with an error. */
  lemma TrailingGarbageKeepsBytes()
    ensures Decode([89, 87, 82, 116, 97, 87, 52, 61, 120]) == Decoded([97, 100, 109, 105, 110], false)
  {
    var s: Bytes := [89, 87, 82, 116, 97, 87, 52, 61, 120];
    NoNewlinesStripped(s);
    AdmGroup();
    SymbolGroupFirst(s);
    assert s[4..] == [97, 87, 52, 61, 120];
    PaddedGroupThenGarbage();
  }

  /** "YWRt" is a group of four symbols and decodes to "adm". */
  lemma AdmGroup()
    ensures IsSymbol(89) && IsSymbol(87) && IsSymbol(82) && IsSymbol(116)
    ensures DecodeQuantum(89, 87, 82, 116) == [97, 100, 109]
  {
    assert SymbolValue(89) == 24 && SymbolValue(87) == 22 && SymbolValue(82) == 17 && SymbolValue(116) == 45;
  }

  /** A leading group of four symbols is decoded and decoding goes on. */
  lemma SymbolGroupFirst(s: Bytes)
    requires |s| >= 4 && IsSymbol(s[0]) && IsSymbol(s[1]) && IsSymbol(s[2]) && IsSymbol(s[3])
    ensures DecodeQuanta(s)
      == Decoded(DecodeQuantum(s[0], s[1], s[2], s[3]) + DecodeQuanta(s[4..]).bytes, DecodeQuanta(s[4..]).ok)
  {
  }

  /** "aW4=x": the padded group gives "in", and the byte after it an error. */
  lemma PaddedGroupThenGarbage()
    ensures DecodeQuanta([97, 87, 52, 61, 120]) == Decoded([105, 110], false)
  {
    var t: Bytes := [97, 87, 52, 61, 120];
    assert SymbolValue(97) == 26 && SymbolValue(87) == 22 && SymbolValue(52) == 56 && !IsSymbol(61);
  }

  /** The values of the repository's test document: "admin" and
      "1f2d1e2e67df", and their encodings "YWRtaW4=" and "MWYyZDFlMmU2N2Rm". */
  const User: Bytes := [97, 100, 109, 105, 110]
  const UserBase64: Bytes := [89, 87, 82, 116, 97, 87, 52, 61]
  const Password: Bytes := [49, 102, 50, 100, 49, 101, 50, 101, 54, 55, 100, 102]
  const PasswordBase64: Bytes := [77, 87, 89, 121, 90, 68, 70, 108, 77, 109, 85, 50, 78, 50, 82, 109]

  /** The test values encode to, and decode from, the test document's base64
      values. */
  lemma TestDocumentValues()
    ensures Encode(User) == UserBase64 && Decode(UserBase64) == Decoded(User, true)
    ensures Encode(Password) == PasswordBase64 && Decode(PasswordBase64) == Decoded(Password, true)
  {
    EncodeAdmin();
    EncodePassword();
    DecodeEncode(User);
    DecodeEncode(Password);
  }

  lemma EncodeAdmin()
    ensures Encode([97, 100, 109, 105, 110]) == [89, 87, 82, 116, 97, 87, 52, 61]
  {
    GroupThenPair([97, 100, 109, 105, 110]);
    AdminGroups();
  }

  lemma AdminGroups()
    ensures EncodeQuantum(97, 100, 109) == [89, 87, 82, 116]
    ensures Encode([105, 110]) == [97, 87, 52, 61]
  {
  }

  lemma EncodePassword()
    ensures Encode([49, 102, 50, 100, 49, 101, 50, 101, 54, 55, 100, 102])
      == [77, 87, 89, 121, 90, 68, 70, 108, 77, 109, 85, 50, 78, 50, 82, 109]
  {
    FourGroups([49, 102, 50, 100, 49, 101, 50, 101, 54, 55, 100, 102]);
    PasswordGroups();
  }

  lemma PasswordGroups()
    ensures EncodeQuantum(49, 102, 50) == [77, 87, 89, 121]
    ensures EncodeQuantum(100, 49, 101) == [90, 68, 70, 108]
    ensures EncodeQuantum(50, 101, 54) == [77, 109, 85, 50]
    ensures EncodeQuantum(55, 100, 102) == [78, 50, 82, 109]
  {
  }

  /** Five bytes encode as one full group and a padded pair. */
  lemma GroupThenPair(s: Bytes)
    requires |s| == 5
    ensures Encode(s) == EncodeQuantum(s[0], s[1], s[2]) + Encode([s[3], s[4]])
  {
    assert s[3..] == [s[3], s[4]];
  }

  /** Twelve bytes encode as four full groups. */
  lemma FourGroups(s: Bytes)
    requires |s| == 12
    ensures Encode(s) == EncodeQuantum(s[0], s[1], s[2]) + EncodeQuantum(s[3], s[4], s[5])
      + EncodeQuantum(s[6], s[7], s[8]) + EncodeQuantum(s[9], s[10], s[11])
  {
    var t := s[3..];
    var u := t[3..];
    var w := u[3..];
    EncodeSplit(s);
    EncodeSplit(t);
    EncodeSplit(u);
    EncodeSplit(w);
    assert |w[3..]| == 0;
  }

  /** One full group at the front of the input is encoded first. */
  lemma EncodeSplit(s: Bytes)
    requires |s| >= 3
    ensures Encode(s) == EncodeQuantum(s[0], s[1], s[2]) + Encode(s[3..])
  {
  }
}
