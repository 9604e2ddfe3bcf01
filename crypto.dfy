/**
 * The vault's crypto helpers (js/crypto.js): the 32-bit fallback hashes, hex encoding and
 * decoding, the XOR keystream, salted password hashing over an abstract digest, and the
 * random-driven generators of passwords and invite codes, plus the strength meter.
 */
module Crypto {
  import opened Wrappers
  import opened Text

  /** One element of a `Uint8Array`. */
  type Byte = n: int | 0 <= n < 0x100

  /** One element of a `Uint32Array`, as `crypto.getRandomValues` fills it. */
  type Uint32 = n: int | 0 <= n < 0x1_0000_0000

  const TWO32: int := 0x1_0000_0000

  // ----- 32-bit integer arithmetic -----

  function Pow2(k: nat): (r: nat)
    ensures r >= 1
  {
    if k == 0 then 1 else 2 * Pow2(k - 1)
  }

  /** ECMAScript ToInt32: the integer wrapped modulo 2^32 into [-2^31, 2^31). */
  function ToInt32(x: int): (r: int)
    ensures -0x8000_0000 <= r < 0x8000_0000
    ensures r % TWO32 == x % TWO32
  {
    var m := x % TWO32;
    if m < 0x8000_0000 then m else m - TWO32
  }

  /** ECMAScript ToUint32: the integer wrapped modulo 2^32 into [0, 2^32). */
  function Wrap32(x: int): (r: nat)
    ensures r < TWO32
  {
    x % TWO32
  }

  /** `Math.abs`. */
  function Abs(x: int): (r: nat)
    ensures r == x || r == -x
  {
    if x < 0 then -x else x
  }

  /** Bitwise exclusive or of two non-negative integers, bit by bit from the lowest. */
  function Xor(a: nat, b: nat): nat
    decreases a + b
  {
    if a == 0 && b == 0 then 0 else 2 * Xor(a / 2, b / 2) + (if a % 2 == b % 2 then 0 else 1)
  }

  /** Exclusive or with the same mask twice is the identity. */
  lemma {:induction false} XorInvolution(a: nat, b: nat)
    ensures Xor(Xor(a, b), b) == a
    decreases a + b
  {
    if a != 0 || b != 0 {
      var x := Xor(a, b);
      XorInvolution(a / 2, b / 2);
      assert x / 2 == Xor(a / 2, b / 2) && x % 2 == (if a % 2 == b % 2 then 0 else 1);
      assert Xor(x, b) == 2 * Xor(x / 2, b / 2) + (if x % 2 == b % 2 then 0 else 1);
    }
  }

  /** Exclusive or of two k-bit numbers is a k-bit number. */
  lemma {:induction false} XorBound(a: nat, b: nat, k: nat)
    requires a < Pow2(k) && b < Pow2(k)
    ensures Xor(a, b) < Pow2(k)
  {
    if k > 0 && (a != 0 || b != 0) {
      XorBound(a / 2, b / 2, k - 1);
    }
  }

  /** The bits of `a` from bit m upwards: `a >>> m`. */
  function Shr(a: nat, m: nat): nat {
    if m == 0 then a else Shr(a / 2, m - 1)
  }

  /** A mask below 2^m leaves every bit from m upwards alone. */
  lemma {:induction false} XorKeepsHighBits(a: nat, k: nat, m: nat)
    requires k < Pow2(m)
    ensures Shr(Xor(a, k), m) == Shr(a, m)
    decreases m
  {
    if m == 0 {
      assert k == 0;
      XorZero(a);
    } else if a != 0 || k != 0 {
      var x := Xor(a, k);
      assert x == 2 * Xor(a / 2, k / 2) + (if a % 2 == k % 2 then 0 else 1);
      assert x / 2 == Xor(a / 2, k / 2);
      assert k / 2 < Pow2(m - 1);
      XorKeepsHighBits(a / 2, k / 2, m - 1);
      assert Shr(x, m) == Shr(x / 2, m - 1);
    }
  }

  lemma {:induction false} XorZero(a: nat)
    ensures Xor(a, 0) == a
    decreases a
  {
    if a != 0 {
      XorZero(a / 2);
    }
  }

  lemma ShrSeven(a: nat)
    ensures Shr(a, 7) == a / 128
  {
    var a1, a2, a3 := a / 2, a / 4, a / 8;
    var a4, a5, a6 := a / 16, a / 32, a / 64;
    assert a1 / 2 == a2 && a2 / 2 == a3 && a3 / 2 == a4 && a4 / 2 == a5 && a5 / 2 == a6 && a6 / 2 == a / 128;
    assert Shr(a6, 1) == Shr(a / 128, 0);
    assert Shr(a5, 2) == Shr(a6, 1);
    assert Shr(a4, 3) == Shr(a5, 2);
    assert Shr(a3, 4) == Shr(a4, 3);
    assert Shr(a2, 5) == Shr(a3, 4);
    assert Shr(a1, 6) == Shr(a2, 5);
  }

  /** Adding a multiple of 2^32 does not change the remainder. */
  lemma ModShift(z: int, q: int)
    ensures (z + TWO32 * q) % TWO32 == z % TWO32
  {
    var w := z + TWO32 * q;
    assert w == TWO32 * (w / TWO32) + w % TWO32;
    assert z == TWO32 * (z / TWO32) + z % TWO32;
    assert TWO32 * (w / TWO32 - q - z / TWO32) == z % TWO32 - w % TWO32;
  }

  /** The remainder of a sum depends on each summand's remainder only. */
  lemma ModAdd(a: int, b: int)
    ensures (a + b) % TWO32 == (a % TWO32 + b) % TWO32
  {
    ModShift(a % TWO32 + b, a / TWO32);
    assert a % TWO32 + b + TWO32 * (a / TWO32) == a + b;
  }

  // ----- Number.prototype.toString(16) and padStart -----

  function HexDigit(d: int): (c: char)
    requires 0 <= d < 16
    ensures IsLowerHexChar(c) && DigitValue(c) == d
  {
    if d < 10 then ('0' as int + d) as char else ('a' as int + d - 10) as char
  }

  predicate IsLowerHexChar(c: char) {
    '0' <= c <= '9' || 'a' <= c <= 'f'
  }

  predicate IsLowerHex(s: string) {
    forall i :: 0 <= i < |s| ==> IsLowerHexChar(s[i])
  }

  /** The value of a lowercase hex digit. */
  function DigitValue(c: char): int {
    if '0' <= c <= '9' then c as int - '0' as int
    else if 'a' <= c <= 'f' then c as int - 'a' as int + 10
    else 0
  }

  /** The number a string of lowercase hex digits denotes. */
  function ParseHex(s: string): nat {
    if s == [] then 0 else 16 * ParseHex(s[..|s| - 1]) + DigitValue(s[|s| - 1])
  }

  /** `n.toString(16)` for a non-negative integer: lowercase digits, no leading zero. */
  function ToHex(n: nat): (r: string)
    ensures 1 <= |r| && IsLowerHex(r)
    ensures 1 < |r| ==> r[0] != '0'
  {
    if n < 16 then [HexDigit(n)] else ToHex(n / 16) + [HexDigit(n % 16)]
  }

  /** `toString(16)` is undone by reading the digits back. */
  lemma {:induction false} ToHexParses(n: nat)
    ensures ParseHex(ToHex(n)) == n
  {
    if n >= 16 {
      ToHexParses(n / 16);
      var r := ToHex(n);
      assert r[..|r| - 1] == ToHex(n / 16);
    } else {
      assert ToHex(n)[..0] == [];
    }
  }

  function Pow16(k: nat): (r: nat)
    ensures r >= 1
  {
    if k == 0 then 1 else 16 * Pow16(k - 1)
  }

  /** A number below 16^k has at most k hex digits. */
  lemma {:induction false} ToHexLength(n: nat, k: nat)
    requires 1 <= k && n < Pow16(k)
    ensures |ToHex(n)| <= k
  {
    if n >= 16 {
      assert k >= 2;
      ToHexLength(n / 16, k - 1);
    }
  }

  /** `s.padStart(n, fill)` on an ASCII string, whose length in code units is |s|. */
  function PadStart(s: string, n: nat, fill: char): (r: string)
    ensures |r| == if |s| >= n then |s| else n
    ensures r[|r| - |s|..] == s
    ensures forall i :: 0 <= i < |r| - |s| ==> r[i] == fill
  {
    if |s| >= n then s else seq(n - |s|, _ => fill) + s
  }

  // ----- The fallback hashes -----

  /** One step of `simpleHash`'s loop: `((hash << 5) - hash) + char`, then `hash & hash`. */
  function Hash31Step(h: int, c: CodeUnit): int {
    ToInt32(ToInt32(h * 32) - h + c)
  }

  /** The `hash` variable of `simpleHash` after reading all of `s`. */
  function Hash31(s: JsString): (r: int)
    ensures -0x8000_0000 <= r < 0x8000_0000
  {
    if s == [] then 0 else Hash31Step(Hash31(s[..|s| - 1]), s[|s| - 1])
  }

  /** One step of `simpleHashRound`'s loop: `((hash << 5) + hash) ^ code`. */
  function DjbStep(h: int, c: CodeUnit): int {
    ToInt32(Xor(Wrap32(ToInt32(h * 32) + h), c))
  }

  /** The `hash` variable of `simpleHashRound` after reading all of `s`, starting from 5381. */
  function Djb(s: JsString): (r: int)
    ensures -0x8000_0000 <= r < 0x8000_0000
  {
    if s == [] then 5381 else DjbStep(Djb(s[..|s| - 1]), s[|s| - 1])
  }

  /** Modulo 2^32, one step of `simpleHash` multiplies by 31 and adds the code unit. */
  lemma Hash31StepIsAffine(h: int, c: CodeUnit)
    ensures Wrap32(Hash31Step(h, c)) == (31 * Wrap32(h) + c) % TWO32
  {
    var x := ToInt32(h * 32);
    ModAdd(x, c - h);
    ModAdd(h * 32, c - h);
    ModShift(31 * h + c, -31 * (h / TWO32));
    assert 31 * h + c + TWO32 * (-31 * (h / TWO32)) == 31 * Wrap32(h) + c;
  }

  /** `simpleHashRound`: the loop over the code units, then `Math.abs`. */
  method SimpleHashRound(str: JsString) returns (r: nat)
    ensures r == Abs(Djb(str))
    ensures r <= 0x8000_0000
  {
    var hash := 5381;
    var i := 0;
    while i < |str|
      invariant 0 <= i <= |str|
      invariant hash == Djb(str[..i])
    {
      assert str[..i + 1][..i] == str[..i];
      hash := DjbStep(hash, str[i]);
      i := i + 1;
    }
    assert str[..|str|] == str;
    r := Abs(hash);
  }

  /** The decimal digit `String(i)` gives for `i < 10`. */
  function DecimalDigit(i: nat): char
    requires i < 10
  {
    ('0' as int + i) as char
  }

  /** The string `base + i + str` the i-th round hashes. */
  function RoundInput(base: string, i: nat, str: JsString): JsString
    requires i < 10
  {
    Utf16(base + [DecimalDigit(i)]) + str
  }

  /** The i-th round's eight hex digits: `simpleHashRound(...).toString(16).padStart(8, '0')`. */
  function RoundHex(base: string, i: nat, str: JsString): (r: string)
    requires i < 10
    ensures |r| == 8 && IsLowerHex(r)
  {
    var n := Abs(Djb(RoundInput(base, i, str)));
    assert Pow16(8) == TWO32;
    ToHexLength(n, 8);
    PadStart(ToHex(n), 8, '0')
  }

  /** The first `n` rounds of `simpleHash`'s second loop, concatenated. */
  function Rounds(base: string, str: JsString, n: nat): (r: string)
    requires n <= 8
    ensures |r| == 8 * n && IsLowerHex(r)
  {
    if n == 0 then [] else Rounds(base, str, n - 1) + RoundHex(base, n - 1, str)
  }

  /** What `simpleHash` returns: 64 lowercase hex digits. */
  function SimpleHashOf(str: JsString): (r: string)
    ensures |r| == 64 && IsLowerHex(r)
  {
    Rounds(ToHex(Abs(Hash31(str))), str, 8)
  }

  /** `simpleHash`: a 31-multiplier hash of the code units, stretched by eight seeded rounds. */
  method SimpleHash(str: JsString) returns (r: string)
    ensures r == SimpleHashOf(str)
  {
    var hash := 0;
    var i := 0;
    while i < |str|
      invariant 0 <= i <= |str|
      invariant hash == Hash31(str[..i])
    {
      assert str[..i + 1][..i] == str[..i];
      hash := Hash31Step(hash, str[i]);
      i := i + 1;
    }
    assert str[..|str|] == str;
    var base := ToHex(Abs(hash));
    r := "";
    var j := 0;
    while j < 8
      invariant 0 <= j <= 8
      invariant r == Rounds(base, str, j)
    {
      var h := SimpleHashRound(RoundInput(base, j, str));
      r := r + PadStart(ToHex(h), 8, '0');
      j := j + 1;
    }
  }

  // ----- bufferToHex / hexToBuffer -----

  /** One byte as two lowercase hex digits: `b.toString(16).padStart(2, '0')`. */
  function ByteHex(b: Byte): (r: string)
    ensures r == [HexDigit(b / 16), HexDigit(b % 16)]
  {
    assert b >= 16 ==> ToHex(b) == ToHex(b / 16) + [HexDigit(b % 16)];
    PadStart(ToHex(b), 2, '0')
  }

  /** `bufferToHex`: the bytes as lowercase hex, two digits each. */
  function BufferToHex(bytes: seq<Byte>): (r: string)
    ensures |r| == 2 * |bytes| && IsLowerHex(r)
  {
    if bytes == [] then ""
    else
      var h := ByteHex(bytes[0]);
      var t := BufferToHex(bytes[1..]);
      LowerHexAppend(h, t);
      h + t
  }

  lemma LowerHexAppend(a: string, b: string)
    requires IsLowerHex(a) && IsLowerHex(b)
    ensures IsLowerHex(a + b)
  {
    forall i | 0 <= i < |a + b| ensures IsLowerHexChar((a + b)[i]) {
      if i >= |a| {
        assert (a + b)[i] == b[i - |a|];
      }
    }
  }

  /**
   * The matches of `/.{1,2}/g`: runs of code units other than line terminators, cut into pairs
   * from the start of each run, a run of odd length ending in a single unit.
   */
  function Chunks(s: JsString): (r: seq<JsString>)
    ensures forall i :: 0 <= i < |r| ==> 1 <= |r[i]| <= 2
  {
    if s == [] then []
    else if IsLineTerminatorCode(s[0]) then Chunks(s[1..])
    else if |s| >= 2 && !IsLineTerminatorCode(s[1]) then [s[..2]] + Chunks(s[2..])
    else [s[..1]] + Chunks(s[1..])
  }

  predicate IsHexUnit(u: CodeUnit) {
    0x30 <= u <= 0x39 || 0x41 <= u <= 0x46 || 0x61 <= u <= 0x66
  }

  function HexUnitValue(u: CodeUnit): nat {
    if 0x30 <= u <= 0x39 then u - 0x30 else if 0x41 <= u <= 0x46 then u - 0x41 + 10
    else if 0x61 <= u <= 0x66 then u - 0x61 + 10 else 0
  }

  /** The longest prefix of hex digits. */
  function HexPrefix(s: JsString): (r: JsString)
    ensures |r| <= |s| && r == s[..|r|]
    ensures forall i :: 0 <= i < |r| ==> IsHexUnit(r[i])
    ensures |r| < |s| ==> !IsHexUnit(s[|r|])
  {
    if s != [] && IsHexUnit(s[0]) then [s[0]] + HexPrefix(s[1..]) else []
  }

  function HexUnitsValue(s: JsString): nat {
    if s == [] then 0 else 16 * HexUnitsValue(s[..|s| - 1]) + HexUnitValue(s[|s| - 1])
  }

  function DropLeadingSpaces(s: JsString): JsString {
    if s != [] && IsSpaceCode(s[0]) then DropLeadingSpaces(s[1..]) else s
  }

  /**
   * `parseInt(s, 16)`: leading white space, an optional sign, an optional `0x`/`0X` prefix, then
   * the longest run of hex digits; None stands for NaN.
   */
  function ParseIntHex(s: JsString): (r: Option<int>)
    ensures r.None? <==> HexPrefix(StripHexPrefix(StripSign(DropLeadingSpaces(s)))) == []
  {
    var t := DropLeadingSpaces(s);
    var digits := HexPrefix(StripHexPrefix(StripSign(t)));
    if digits == [] then None
    else if t[0] == 0x2D then Some(-(HexUnitsValue(digits) as int))
    else Some(HexUnitsValue(digits))
  }

  function StripSign(t: JsString): JsString {
    if t != [] && (t[0] == 0x2D || t[0] == 0x2B) then t[1..] else t
  }

  function StripHexPrefix(u: JsString): JsString {
    if |u| >= 2 && u[0] == 0x30 && (u[1] == 0x78 || u[1] == 0x58) then u[2..] else u
  }

  /** Storing a number into a `Uint8Array`: NaN becomes 0, anything else is taken modulo 256. */
  function ToUint8(v: Option<int>): Byte {
    match v
    case None => 0
    case Some(n) => n % 0x100
  }

  /** Each match parsed by `parseInt(byte, 16)` and stored into a `Uint8Array`. */
  function ParseChunks(chunks: seq<JsString>): (r: seq<Byte>)
    ensures |r| == |chunks|
    ensures forall i :: 0 <= i < |chunks| ==> r[i] == ToUint8(ParseIntHex(chunks[i]))
  {
    if chunks == [] then [] else [ToUint8(ParseIntHex(chunks[0]))] + ParseChunks(chunks[1..])
  }

  /**
   * `hexToBuffer`: each match parsed as hex and stored as a byte. When nothing matches, `match`
   * returns null and the call throws; that is None here.
   */
  function HexToBuffer(hex: string): (r: Option<seq<Byte>>)
    ensures r.None? <==> Chunks(Utf16(hex)) == []
    ensures r.Some? ==> |r.value| == |Chunks(Utf16(hex))|
  {
    if Chunks(Utf16(hex)) == [] then None else Some(ParseChunks(Chunks(Utf16(hex))))
  }

  lemma HexDigitUnit(d: int)
    requires 0 <= d < 16
    ensures IsHexUnit(HexDigit(d) as int) && HexUnitValue(HexDigit(d) as int) == d
    ensures !IsSpaceCode(HexDigit(d) as int) && !IsLineTerminatorCode(HexDigit(d) as int)
  {
  }

  /** A byte's two hex digits as code units. */
  function PairUnits(b: Byte): (r: JsString)
    ensures |r| == 2
  {
    [HexDigit(b / 16) as int, HexDigit(b % 16) as int]
  }

  /** The code units of `bufferToHex(bytes)`, one pair per byte. */
  function HexPairs(bytes: seq<Byte>): (r: JsString)
    ensures |r| == 2 * |bytes|
  {
    if bytes == [] then [] else PairUnits(bytes[0]) + HexPairs(bytes[1..])
  }

  /** A byte's two hex digits parse back to the byte. */
  lemma ByteHexParses(b: Byte)
    ensures ParseIntHex(PairUnits(b)) == Some(b)
    ensures ToUint8(ParseIntHex(PairUnits(b))) == b
  {
    var s := PairUnits(b);
    HexDigitUnit(b / 16);
    HexDigitUnit(b % 16);
    assert DropLeadingSpaces(s) == s;
    assert StripSign(s) == s;
    assert StripHexPrefix(s) == s;
    assert HexPrefix(s[1..][1..]) == [];
    assert HexPrefix(s) == s;
    assert s[..1] == [s[0]] && s[..1][..0] == [];
    assert HexUnitsValue(s[..1]) == b / 16;
    assert HexUnitsValue(s) == 16 * (b / 16) + b % 16;
  }

  lemma Utf16OfByteHex(b: Byte)
    ensures Utf16(ByteHex(b)) == PairUnits(b)
  {
    var h := ByteHex(b);
    assert h[1..][1..] == [];
    assert Utf16(h[1..]) == UnitsOf(h[1]) + Utf16(h[1..][1..]);
  }

  lemma {:induction false} Utf16OfBufferToHex(bytes: seq<Byte>)
    ensures Utf16(BufferToHex(bytes)) == HexPairs(bytes)
  {
    if bytes != [] {
      Utf16OfBufferToHex(bytes[1..]);
      Utf16Append(ByteHex(bytes[0]), BufferToHex(bytes[1..]));
      Utf16OfByteHex(bytes[0]);
    }
  }

  /** The bytes' hex pairs as separate strings. */
  function PairList(bytes: seq<Byte>): (r: seq<JsString>)
    ensures |r| == |bytes|
  {
    if bytes == [] then [] else [PairUnits(bytes[0])] + PairList(bytes[1..])
  }

  /** The regular expression cuts a run of hex pairs into exactly those pairs. */
  lemma {:induction false} ChunksOfHexPairs(bytes: seq<Byte>)
    ensures Chunks(HexPairs(bytes)) == PairList(bytes)
  {
    if bytes != [] {
      var b := bytes[0];
      var pair := PairUnits(b);
      var rest := HexPairs(bytes[1..]);
      var u := pair + rest;
      ChunksOfHexPairs(bytes[1..]);
      HexDigitUnit(b / 16);
      HexDigitUnit(b % 16);
      assert u[..2] == pair && u[2..] == rest;
      assert Chunks(u) == [pair] + Chunks(rest);
    }
  }

  lemma ParseChunksCons(c: JsString, cs: seq<JsString>)
    ensures ParseChunks([c] + cs) == [ToUint8(ParseIntHex(c))] + ParseChunks(cs)
  {
    assert ([c] + cs)[1..] == cs;
  }

  /** Each pair parses back to its byte. */
  lemma {:induction false} ParsePairList(bytes: seq<Byte>)
    ensures ParseChunks(PairList(bytes)) == bytes
  {
    if bytes != [] {
      var b, rest := bytes[0], bytes[1..];
      ParsePairList(rest);
      ByteHexParses(b);
      ParseChunksCons(PairUnits(b), PairList(rest));
      assert PairList(bytes) == [PairUnits(b)] + PairList(rest);
      assert bytes == [b] + rest;
    }
  }

  /** `hexToBuffer(bufferToHex(b))` gives back `b` for any non-empty buffer, and throws for the empty one. */
  lemma HexRoundTrip(bytes: seq<Byte>)
    ensures HexToBuffer(BufferToHex(bytes)) == if bytes == [] then None else Some(bytes)
  {
    Utf16OfBufferToHex(bytes);
    ChunksOfHexPairs(bytes);
    ParsePairList(bytes);
  }

  // ----- The XOR keystream -----

  predicate IsHighSurrogate(u: int) {
    0xD800 <= u < 0xDC00
  }

  predicate IsLowSurrogate(u: int) {
    0xDC00 <= u < 0xE000
  }

  /**
   * A string `encodeURIComponent` accepts: every high surrogate is followed by a low one and
   * every low surrogate follows a high one. Stated pairwise: a unit is a high surrogate exactly
   * when the next one is a low surrogate, the first unit is not a low surrogate and the last not
   * a high one.
   */
  predicate WellFormed(s: JsString) {
    && (forall i :: 0 <= i < |s| - 1 ==> (IsHighSurrogate(s[i]) <==> IsLowSurrogate(s[i + 1])))
    && (s != [] ==> !IsLowSurrogate(s[0]) && !IsHighSurrogate(s[|s| - 1]))
  }

  /** `String.fromCharCode`: ToUint16 of its argument. */
  function FromCharCode(n: int): CodeUnit {
    n % 0x1_0000
  }

  /** Every code unit of `text` xor-ed with the hex digit at the same position modulo the key length. */
  function XorWith(text: JsString, keyHash: string): (r: JsString)
    requires keyHash != [] && IsLowerHex(keyHash)
    ensures |r| == |text|
  {
    seq(|text|, i requires 0 <= i < |text| => FromCharCode(Xor(text[i], keyHash[i % |keyHash|] as int)))
  }

  /**
   * The loop shared by `xorEncrypt` and `xorDecrypt`: each code unit xor-ed with the unit of the
   * key's `simpleHash` at the same position modulo 64.
   */
  function XorStream(text: JsString, key: JsString): (r: JsString)
    ensures |r| == |text|
  {
    XorWith(text, SimpleHashOf(key))
  }

  /** The loop itself, over the key hash computed first. */
  method XorLoop(text: JsString, key: JsString) returns (r: JsString)
    ensures r == XorStream(text, key)
  {
    var keyHash := SimpleHash(key);
    r := [];
    var i := 0;
    while i < |text|
      invariant 0 <= i <= |text|
      invariant r == XorWith(text, keyHash)[..i]
    {
      r := r + [FromCharCode(Xor(text[i], keyHash[i % |keyHash|] as int))];
      i := i + 1;
    }
  }

  lemma Pow2Values()
    ensures Pow2(7) == 128 && Pow2(16) == 0x1_0000
  {
  }

  /** The surrogate class of a unit depends only on its bits from bit 7 upwards. */
  lemma SurrogateBlocks(x: nat)
    ensures IsHighSurrogate(x) <==> 432 <= x / 128 < 440
    ensures IsLowSurrogate(x) <==> 440 <= x / 128 < 448
  {
  }

  /** A mask below 128 keeps a code unit below 2^16 and keeps its bits from bit 7 upwards. */
  lemma XorSmallMask(u: CodeUnit, k: nat)
    requires k < 128
    ensures Xor(u, k) < 0x1_0000
    ensures Xor(u, k) / 128 == u / 128
  {
    Pow2Values();
    XorBound(u, k, 16);
    XorKeepsHighBits(u, k, 7);
    ShrSeven(u);
    ShrSeven(Xor(u, k));
  }

  /** One unit xor-ed with a hex digit stays a code unit and keeps its surrogate class. */
  lemma XorUnit(u: CodeUnit, c: char)
    requires IsLowerHexChar(c)
    ensures FromCharCode(Xor(u, c as int)) == Xor(u, c as int)
    ensures IsHighSurrogate(Xor(u, c as int)) <==> IsHighSurrogate(u)
    ensures IsLowSurrogate(Xor(u, c as int)) <==> IsLowSurrogate(u)
    ensures Xor(Xor(u, c as int), c as int) == u
  {
    var k := c as int;
    XorSmallMask(u, k);
    SurrogateBlocks(u);
    SurrogateBlocks(Xor(u, k));
    XorInvolution(u, k);
  }

  /** Running the loop twice with the same key gives back the text: `xorDecrypt` undoes `xorEncrypt`. */
  lemma XorWithInvolution(text: JsString, keyHash: string)
    requires keyHash != [] && IsLowerHex(keyHash)
    ensures XorWith(XorWith(text, keyHash), keyHash) == text
  {
    var once := XorWith(text, keyHash);
    forall i | 0 <= i < |text| ensures XorWith(once, keyHash)[i] == text[i] {
      XorUnit(text[i], keyHash[i % |keyHash|]);
    }
  }

  lemma XorStreamInvolution(text: JsString, key: JsString)
    ensures XorStream(XorStream(text, key), key) == text
  {
    XorWithInvolution(text, SimpleHashOf(key));
  }

  /** The loop keeps every unit's surrogate class, so it keeps well-formed text well-formed. */
  lemma XorWithKeepsWellFormed(text: JsString, keyHash: string)
    requires keyHash != [] && IsLowerHex(keyHash)
    requires WellFormed(text)
    ensures WellFormed(XorWith(text, keyHash))
  {
    var out := XorWith(text, keyHash);
    forall i | 0 <= i < |out| - 1
      ensures IsHighSurrogate(out[i]) <==> IsLowSurrogate(out[i + 1])
    {
      XorUnit(text[i], keyHash[i % |keyHash|]);
      XorUnit(text[i + 1], keyHash[(i + 1) % |keyHash|]);
    }
    if out != [] {
      XorUnit(text[0], keyHash[0 % |keyHash|]);
      XorUnit(text[|out| - 1], keyHash[(|out| - 1) % |keyHash|]);
    }
  }

  /** Hence the loop's output is well-formed exactly when its input is. */
  lemma XorWithWellFormed(text: JsString, keyHash: string)
    requires keyHash != [] && IsLowerHex(keyHash)
    ensures WellFormed(XorWith(text, keyHash)) <==> WellFormed(text)
  {
    if WellFormed(text) {
      XorWithKeepsWellFormed(text, keyHash);
    }
    if WellFormed(XorWith(text, keyHash)) {
      XorWithKeepsWellFormed(XorWith(text, keyHash), keyHash);
      XorWithInvolution(text, keyHash);
    }
  }

  /** The code units of one scalar value never start with a low surrogate and pair up correctly. */
  lemma UnitsOfShape(c: char)
    ensures var u := UnitsOf(c);
      && !IsLowSurrogate(u[0])
      && (|u| == 1 ==> !IsHighSurrogate(u[0]))
      && (|u| == 2 ==> IsHighSurrogate(u[0]) && IsLowSurrogate(u[1]))
  {
  }

  /** Every string a JavaScript value can hold after `JSON.stringify` encodes to well-formed UTF-16. */
  lemma {:induction false} Utf16WellFormed(s: string)
    ensures WellFormed(Utf16(s))
  {
    if s != [] {
      Utf16WellFormed(s[1..]);
      UnitsOfShape(s[0]);
      var head := UnitsOf(s[0]);
      var tail := Utf16(s[1..]);
      var u := head + tail;
      assert Utf16(s) == u;
      forall i | 0 <= i < |u| - 1
        ensures IsHighSurrogate(u[i]) <==> IsLowSurrogate(u[i + 1])
      {
        if i >= |head| {
          assert u[i] == tail[i - |head|] && u[i + 1] == tail[i - |head| + 1];
        } else if i + 1 == |head| {
          assert u[i + 1] == tail[0];
        }
      }
      if tail != [] {
        assert u[|u| - 1] == tail[|tail| - 1];
      }
    }
  }

  /**
   * `xorEncrypt` up to its transport encoding: the xor-ed units. `encodeURIComponent` throws on a
   * lone surrogate; for the UTF-16 of any string it never does.
   */
  method XorEncrypt(text: string, key: string) returns (r: Result<JsString, string>)
    ensures r == Ok(XorStream(Utf16(text), Utf16(key)))
  {
    var units := XorLoop(Utf16(text), Utf16(key));
    Utf16WellFormed(text);
    XorWithWellFormed(Utf16(text), SimpleHashOf(Utf16(key)));
    if !WellFormed(units) {
      assert false;
      return Err("URIError");
    }
    r := Ok(units);
  }

  /** `xorDecrypt` after its transport decoding: the same loop. */
  method XorDecrypt(units: JsString, key: string) returns (r: JsString)
    ensures r == XorStream(units, Utf16(key))
  {
    r := XorLoop(units, Utf16(key));
  }

  /** What `encrypt` returns: the xor-ed JSON text, the salt it was keyed with, and a constant iv. */
  datatype Encrypted = Encrypted(encrypted: JsString, salt: string, iv: string)

  /** `encrypt`: the JSON text xor-ed under `password + salt`, where the salt is 16 random bytes as hex. */
  function Encrypt(json: string, password: string, salt: seq<Byte>): (r: Encrypted)
    requires |salt| == 16
    ensures |r.salt| == 32 && IsLowerHex(r.salt) && r.iv == "fallback"
  {
    var saltHex := BufferToHex(salt);
    Encrypted(XorStream(Utf16(json), Utf16(password + saltHex)), saltHex, "fallback")
  }

  /** `decrypt` up to `JSON.parse`: the stored text xor-ed under `password + salt`. */
  function Decrypt(e: Encrypted, password: string): (r: JsString)
    ensures |r| == |e.encrypted|
  {
    XorStream(e.encrypted, Utf16(password + e.salt))
  }

  /** Decrypting with the password that encrypted gives back the JSON text. */
  lemma EncryptRoundTrip(json: string, password: string, salt: seq<Byte>)
    requires |salt| == 16
    ensures Decrypt(Encrypt(json, password, salt), password) == Utf16(json)
  {
    XorStreamInvolution(Utf16(json), Utf16(password + BufferToHex(salt)));
  }

  // ----- Password hashing over an abstract digest -----

  /**
   * The environment the hashing runs in: whether `crypto.subtle` exists, and the SHA-256 digest of
   * the UTF-8 of a string, None when the call throws.
   */
  datatype Digest = Digest(hasWebCrypto: bool, sha256: string -> Option<seq<Byte>>)

  datatype Hashed = Hashed(hash: string, salt: string)

  /** The stored hash of `password + saltHex`: the digest when available, else `simpleHash`. */
  function SaltedHash(d: Digest, password: string, saltHex: string): (r: string)
    ensures IsLowerHex(r)
    ensures !d.hasWebCrypto ==> |r| == 64
  {
    if d.hasWebCrypto && d.sha256(password + saltHex).Some? then BufferToHex(d.sha256(password + saltHex).value)
    else SimpleHashOf(Utf16(password + saltHex))
  }

  /** `hashPassword`: a salt of 16 random bytes as 32 hex digits, and the salted hash. */
  function HashPassword(d: Digest, password: string, salt: seq<Byte>): (r: Hashed)
    requires |salt| == 16
    ensures |r.salt| == 32 && IsLowerHex(r.salt)
    ensures r.salt == BufferToHex(salt)
    ensures IsLowerHex(r.hash)
  {
    var saltHex := BufferToHex(salt);
    Hashed(SaltedHash(d, password, saltHex), saltHex)
  }

  /** `verifyPassword`: recompute the salted hash and compare with `===`. */
  function VerifyPassword(d: Digest, password: string, storedHash: string, saltHex: string): (r: bool)
    ensures r ==> IsLowerHex(storedHash)
    ensures r && !d.hasWebCrypto ==> |storedHash| == 64
  {
    SaltedHash(d, password, saltHex) == storedHash
  }

  /** A hash made by `hashPassword` verifies for the same password under the same digest. */
  lemma HashThenVerify(d: Digest, password: string, salt: seq<Byte>)
    requires |salt| == 16
    ensures var h := HashPassword(d, password, salt); VerifyPassword(d, password, h.hash, h.salt)
  {
  }

  // ----- Generators -----

  const LowerChars: string := "abcdefghijklmnopqrstuvwxyz"
  const UpperChars: string := "ABCDEFGHIJKLMNOPQRSTUVWXYZ"
  const DigitChars: string := "0123456789"
  const SymbolChars: string := "!@#$%^&*()_+-=[]{}|;:,.<>?"

  predicate IsAsciiLower(c: char) { 'a' <= c <= 'z' }
  predicate IsAsciiUpper(c: char) { 'A' <= c <= 'Z' }
  predicate IsAsciiDigit(c: char) { '0' <= c <= '9' }
  predicate IsAlnum(c: char) { IsAsciiLower(c) || IsAsciiUpper(c) || IsAsciiDigit(c) }

  /** The options of `generatePassword`; a missing one defaults to true. */
  datatype PasswordOptions = PasswordOptions(
    lowercase: Option<bool>,
    uppercase: Option<bool>,
    numbers: Option<bool>,
    symbols: Option<bool>)

  /** The enabled classes concatenated, or the 62 alphanumerics when none is enabled. */
  function Charset(o: PasswordOptions): (r: string)
    ensures |r| > 0
  {
    if EnabledChars(o) == "" then LowerChars + UpperChars + DigitChars else EnabledChars(o)
  }

  /** The character classes the options enable, in the order they are appended. */
  function EnabledChars(o: PasswordOptions): string {
    (if o.lowercase.GetOr(true) then LowerChars else "")
    + (if o.uppercase.GetOr(true) then UpperChars else "")
    + (if o.numbers.GetOr(true) then DigitChars else "")
    + (if o.symbols.GetOr(true) then SymbolChars else "")
  }

  predicate AllDisabled(o: PasswordOptions) {
    !o.lowercase.GetOr(true) && !o.uppercase.GetOr(true) && !o.numbers.GetOr(true) && !o.symbols.GetOr(true)
  }

  lemma SymbolsAreNotAlnum()
    ensures forall i :: 0 <= i < |SymbolChars| ==> !IsAlnum(SymbolChars[i])
  {
  }

  /** `s` holds consecutive characters starting at `first`. */
  predicate IsCharRun(s: string, first: char) {
    forall i :: 0 <= i < |s| ==> s[i] as int == first as int + i
  }

  /** A run from `first` holds exactly the characters from `first` to `last`. */
  lemma CharRunMembers(s: string, first: char, last: char)
    requires IsCharRun(s, first) && last as int == first as int + |s| - 1
    ensures forall c :: c in s <==> first <= c <= last
  {
    forall c | first <= c <= last ensures c in s {
      assert s[c as int - first as int] == c;
    }
  }

  lemma LowerMembers()
    ensures forall c :: c in LowerChars <==> IsAsciiLower(c)
  {
    assert IsCharRun(LowerChars, 'a');
    CharRunMembers(LowerChars, 'a', 'z');
  }

  lemma UpperMembers()
    ensures forall c :: c in UpperChars <==> IsAsciiUpper(c)
  {
    assert IsCharRun(UpperChars, 'A');
    CharRunMembers(UpperChars, 'A', 'Z');
  }

  lemma DigitMembers()
    ensures forall c :: c in DigitChars <==> IsAsciiDigit(c)
  {
    assert IsCharRun(DigitChars, '0');
    CharRunMembers(DigitChars, '0', '9');
  }

  /** Each class string holds exactly the characters of its class. */
  lemma ClassMembers()
    ensures forall c :: c in LowerChars <==> IsAsciiLower(c)
    ensures forall c :: c in UpperChars <==> IsAsciiUpper(c)
    ensures forall c :: c in DigitChars <==> IsAsciiDigit(c)
    ensures forall c :: c in SymbolChars ==> !IsAlnum(c)
  {
    LowerMembers();
    UpperMembers();
    DigitMembers();
    SymbolsAreNotAlnum();
  }

  /**
   * Every character of the charset belongs to an enabled class, or to the alphanumerics when
   * none is enabled; with `symbols: false` every character is alphanumeric.
   */
  lemma CharsetClasses(o: PasswordOptions, c: char)
    requires c in Charset(o)
    ensures AllDisabled(o) ==> IsAlnum(c)
    ensures IsAsciiLower(c) ==> o.lowercase.GetOr(true) || AllDisabled(o)
    ensures IsAsciiUpper(c) ==> o.uppercase.GetOr(true) || AllDisabled(o)
    ensures IsAsciiDigit(c) ==> o.numbers.GetOr(true) || AllDisabled(o)
    ensures !IsAlnum(c) ==> o.symbols.GetOr(true)
  {
    ClassMembers();
    if !AllDisabled(o) {
      assert EnabledChars(o) != "";
      assert c in EnabledChars(o);
    }
  }

  /** With every class disabled the charset is the 62 alphanumerics. */
  lemma CharsetFallback(o: PasswordOptions)
    requires AllDisabled(o)
    ensures Charset(o) == LowerChars + UpperChars + DigitChars
    ensures |Charset(o)| == 62
  {
  }

  /**
   * `generatePassword(length, options)` with `crypto.getRandomValues`: character i is the charset
   * character at `random[i] % chars.length`.
   */
  method GeneratePassword(length: Option<int>, o: PasswordOptions, random: seq<Uint32>) returns (r: string)
    requires |random| >= length.GetOr(16)
    ensures |r| == if length.GetOr(16) > 0 then length.GetOr(16) else 0
    ensures forall i :: 0 <= i < |r| ==> r[i] == Charset(o)[random[i] % |Charset(o)|]
  {
    var n := length.GetOr(16);
    var chars := Charset(o);
    r := "";
    var i := 0;
    while i < n
      invariant 0 <= i && (n > 0 ==> i <= n) && (n <= 0 ==> i == 0)
      invariant i <= |random| && |r| == i
      invariant forall j :: 0 <= j < i ==> r[j] == chars[random[j] % |chars|]
    {
      r := r + [chars[random[i] % |chars|]];
      i := i + 1;
    }
  }

  /** A generated password uses only the enabled classes; with `symbols: false` no symbol appears. */
  lemma GeneratedPasswordClasses(o: PasswordOptions, r: string, random: seq<Uint32>)
    requires |random| >= |r|
    requires forall i :: 0 <= i < |r| ==> r[i] == Charset(o)[random[i] % |Charset(o)|]
    ensures !o.symbols.GetOr(true) ==> forall i :: 0 <= i < |r| ==> IsAlnum(r[i])
    ensures forall i :: 0 <= i < |r| ==> r[i] in Charset(o)
  {
    forall i | 0 <= i < |r| ensures r[i] in Charset(o) && (!o.symbols.GetOr(true) ==> IsAlnum(r[i])) {
      CharsetClasses(o, r[i]);
    }
  }

  /** `'ABCDEFGHIJKLMNOPQRSTUVWXYZ0123456789'`. */
  const InviteChars: string := UpperChars + DigitChars

  lemma InviteCharsClasses()
    ensures |InviteChars| == 36
    ensures forall i :: 0 <= i < 36 ==> IsAsciiUpper(InviteChars[i]) || IsAsciiDigit(InviteChars[i])
  {
    forall i | 0 <= i < 36 ensures IsAsciiUpper(InviteChars[i]) || IsAsciiDigit(InviteChars[i]) {
      if i >= 26 {
        assert InviteChars[i] == DigitChars[i - 26];
      }
    }
  }

  /** `code` is the invite code drawn by `random`: character i is `InviteChars[random[i] % 36]`. */
  predicate InviteCodeOf(code: string, random: seq<Uint32>) {
    |code| == 8 && |random| >= 8 && forall i :: 0 <= i < 8 ==> code[i] == InviteChars[random[i] % 36]
  }

  /** `generateInviteCode`: eight characters drawn from the upper-case letters and digits. */
  method GenerateInviteCode(random: seq<Uint32>) returns (r: string)
    requires |random| >= 8
    ensures |r| == 8
    ensures forall i :: 0 <= i < 8 ==> r[i] == InviteChars[random[i] % 36]
    ensures forall i :: 0 <= i < 8 ==> IsAsciiUpper(r[i]) || IsAsciiDigit(r[i])
    ensures InviteCodeOf(r, random)
  {
    InviteCharsClasses();
    r := "";
    var i := 0;
    while i < 8
      invariant 0 <= i <= 8 && |r| == i
      invariant forall j :: 0 <= j < i ==> r[j] == InviteChars[random[j] % 36]
    {
      r := r + [InviteChars[random[i] % 36]];
      i := i + 1;
    }
  }

  // ----- Strength meter -----

  predicate HasLower(p: string) { exists i :: 0 <= i < |p| && IsAsciiLower(p[i]) }
  predicate HasUpper(p: string) { exists i :: 0 <= i < |p| && IsAsciiUpper(p[i]) }
  predicate HasDigit(p: string) { exists i :: 0 <= i < |p| && IsAsciiDigit(p[i]) }
  predicate HasOther(p: string) { exists i :: 0 <= i < |p| && !IsAlnum(p[i]) }

  /** The number of the seven tests the password passes; lengths count UTF-16 code units. */
  function StrengthTests(p: string): (r: nat)
    ensures r <= 7
  {
    var n := JsLength(p);
    (if n >= 8 then 1 else 0) + (if n >= 12 then 1 else 0) + (if n >= 16 then 1 else 0)
    + (if HasLower(p) then 1 else 0) + (if HasUpper(p) then 1 else 0)
    + (if HasDigit(p) then 1 else 0) + (if HasOther(p) then 1 else 0)
  }

  datatype Strength = Strength(level: string, score: int, text: string)

  /** `checkPasswordStrength`: four bands of the test count. */
  function CheckPasswordStrength(p: string): (r: Strength)
    ensures 1 <= r.score <= 4
    ensures r.level == "weak" <==> StrengthTests(p) <= 2
    ensures r.level == "strong" <==> StrengthTests(p) >= 5
    ensures r.score == 4 <==> StrengthTests(p) >= 6
    ensures StrengthTests(p) <= 2 ==> r == Strength("weak", 1, "Weak")
    ensures 3 <= StrengthTests(p) <= 4 ==> r == Strength("medium", 2, "Medium")
    ensures StrengthTests(p) == 5 ==> r == Strength("strong", 3, "Strong")
    ensures StrengthTests(p) >= 6 ==> r == Strength("strong", 4, "Very Strong")
  {
    var score := StrengthTests(p);
    if score <= 2 then Strength("weak", 1, "Weak")
    else if score <= 4 then Strength("medium", 2, "Medium")
    else if score <= 5 then Strength("strong", 3, "Strong")
    else Strength("strong", 4, "Very Strong")
  }

  /** Appending characters never lowers the strength. */
  lemma StrengthGrowsWithAppend(p: string, q: string)
    ensures CheckPasswordStrength(p + q).score >= CheckPasswordStrength(p).score
  {
    JsLengthAppend(p, q);
    var pq := p + q;
    if HasLower(p) { var i :| 0 <= i < |p| && IsAsciiLower(p[i]); assert pq[i] == p[i]; }
    if HasUpper(p) { var i :| 0 <= i < |p| && IsAsciiUpper(p[i]); assert pq[i] == p[i]; }
    if HasDigit(p) { var i :| 0 <= i < |p| && IsAsciiDigit(p[i]); assert pq[i] == p[i]; }
    if HasOther(p) { var i :| 0 <= i < |p| && !IsAlnum(p[i]); assert pq[i] == p[i]; }
  }

  /** Sixteen or more characters drawn from all four classes rate "Very Strong". */
  lemma LongMixedIsVeryStrong(p: string)
    requires JsLength(p) >= 16 && HasLower(p) && HasUpper(p) && HasDigit(p) && HasOther(p)
    ensures CheckPasswordStrength(p) == Strength("strong", 4, "Very Strong")
  {
  }
}
