/** The SSH collector's own logic: the base64 decoder that turns an ssh-keyscan key into
    bytes, and the choice of the key line in ssh-keyscan's output. */
module SshFingerprint {
  import opened Wrappers
  import opened Bytes
  import opened Text
  import opened Utils

  // ---------------------------------------------------------------- bits

  function Pow2(n: nat): (r: nat)
    ensures r >= 1
  {
    if n == 0 then 1 else 2 * Pow2(n - 1)
  }

  /** The low n bits of v, most significant first. */
  function BitsOf(v: nat, n: nat): (bs: seq<bool>)
    ensures |bs| == n
  {
    if n == 0 then [] else BitsOf(v / 2, n - 1) + [v % 2 == 1]
  }

  /** The number a bit string spells, most significant bit first. */
  function ValueOf(bs: seq<bool>): (v: nat)
    ensures v < Pow2(|bs|)
  {
    if bs == [] then 0 else 2 * ValueOf(bs[..|bs| - 1]) + (if bs[|bs| - 1] then 1 else 0)
  }

  function Zeros(n: nat): (bs: seq<bool>)
    ensures |bs| == n
  {
    seq(n, _ => false)
  }

  lemma {:induction false} ValueOfBitsOf(v: nat, n: nat)
    requires v < Pow2(n)
    ensures ValueOf(BitsOf(v, n)) == v
  {
    if n > 0 {
      ValueOfBitsOf(v / 2, n - 1);
      var bs := BitsOf(v, n);
      assert bs[..|bs| - 1] == BitsOf(v / 2, n - 1);
    }
  }

  lemma {:induction false} BitsOfValueOf(bs: seq<bool>)
    ensures BitsOf(ValueOf(bs), |bs|) == bs
  {
    if bs != [] {
      var init := bs[..|bs| - 1];
      BitsOfValueOf(init);
      assert ValueOf(bs) / 2 == ValueOf(init);
      assert bs == init + [bs[|bs| - 1]];
    }
  }

  lemma Twice(x: int, y: int)
    ensures 2 * (x * y) == x * (2 * y)
  {
  }

  lemma {:induction false} ValueOfAppend(a: seq<bool>, b: seq<bool>)
    ensures ValueOf(a + b) == ValueOf(a) * Pow2(|b|) + ValueOf(b)
    decreases |b|
  {
    if b != [] {
      var b' := b[..|b| - 1];
      var x := if b[|b| - 1] then 1 else 0;
      assert (a + b)[..|a + b| - 1] == a + b';
      ValueOfAppend(a, b');
      assert b[..|b| - 1] == b';
      var va, p := ValueOf(a), Pow2(|b'|);
      calc {
        ValueOf(a + b);
        2 * ValueOf(a + b') + x;
        2 * (va * p + ValueOf(b')) + x;
        { Twice(va, p); }
        va * (2 * p) + (2 * ValueOf(b') + x);
      }
    } else {
      assert a + b == a;
    }
  }

  // ---------------------------------------------------------------- the alphabet

  const Upper: string := "ABCDEFGHIJKLMNOPQRSTUVWXYZ"
  const Lower: string := "abcdefghijklmnopqrstuvwxyz"
  const Digits: string := "0123456789"
  /** The 64 characters of the base64 alphabet of section 4 of RFC 4648, in value order. */
  const Alphabet: string := Upper + Lower + Digits + "+/"

  /** The character for a 6-bit value. */
  function SextetChar(v: nat): char
    requires v < 64
  {
    if v < 26 then ('A' as int + v) as char
    else if v < 52 then ('a' as int + v - 26) as char
    else if v < 62 then ('0' as int + v - 52) as char
    else if v == 62 then '+' else '/'
  }

  // Each run of the alphabet, character by character.
  lemma {:induction false} UpperRun()
    ensures forall v :: 0 <= v < 26 ==> Upper[v] == ('A' as int + v) as char
  {
    forall v | 0 <= v < 26 ensures Upper[v] == ('A' as int + v) as char {
      if v == 0 { } else if v == 1 { } else if v == 2 { } else if v == 3 { } else if v == 4 { } else if v == 5 { } else
      if v == 6 { } else if v == 7 { } else if v == 8 { } else if v == 9 { } else if v == 10 { } else if v == 11 { } else
      if v == 12 { } else if v == 13 { } else if v == 14 { } else if v == 15 { } else if v == 16 { } else if v == 17 { } else
      if v == 18 { } else if v == 19 { } else if v == 20 { } else if v == 21 { } else if v == 22 { } else if v == 23 { } else
      if v == 24 { } else { }
    }
  }

  lemma {:induction false} LowerRun()
    ensures forall v :: 0 <= v < 26 ==> Lower[v] == ('a' as int + v) as char
  {
    forall v | 0 <= v < 26 ensures Lower[v] == ('a' as int + v) as char {
      if v == 0 { } else if v == 1 { } else if v == 2 { } else if v == 3 { } else if v == 4 { } else if v == 5 { } else
      if v == 6 { } else if v == 7 { } else if v == 8 { } else if v == 9 { } else if v == 10 { } else if v == 11 { } else
      if v == 12 { } else if v == 13 { } else if v == 14 { } else if v == 15 { } else if v == 16 { } else if v == 17 { } else
      if v == 18 { } else if v == 19 { } else if v == 20 { } else if v == 21 { } else if v == 22 { } else if v == 23 { } else
      if v == 24 { } else { }
    }
  }

  lemma {:induction false} DigitRun()
    ensures forall v :: 0 <= v < 10 ==> Digits[v] == ('0' as int + v) as char
  {
    forall v | 0 <= v < 10 ensures Digits[v] == ('0' as int + v) as char {
      if v == 0 { } else if v == 1 { } else if v == 2 { } else if v == 3 { } else if v == 4 { } else if v == 5 { } else
      if v == 6 { } else if v == 7 { } else if v == 8 { } else { }
    }
  }

  lemma {:induction false} AlphabetChars()
    ensures |Alphabet| == 64 && forall v :: 0 <= v < 64 ==> Alphabet[v] == SextetChar(v)
  {
    UpperRun();
    LowerRun();
    DigitRun();
    forall v | 0 <= v < 64 ensures Alphabet[v] == SextetChar(v) {
      if v < 26 {
        assert Alphabet[v] == Upper[v];
      } else if v < 52 {
        assert Alphabet[v] == Lower[v - 26];
      } else if v < 62 {
        assert Alphabet[v] == Digits[v - 52];
      }
    }
  }

  lemma {:induction false} SextetCharInjective(u: nat, v: nat)
    requires u < 64 && v < 64 && SextetChar(u) == SextetChar(v)
    ensures u == v
  {
  }

  /** No character of s ends the decoding. */
  predicate NoStop(s: string)
  {
    forall j :: 0 <= j < |s| ==> !IsStop(s[j])
  }

  /** Characters that end the decoding. */
  predicate IsStop(c: char)
  {
    c == '=' || c == '\n' || c == '\r'
  }

  lemma {:induction false} SextetCharNotStop(v: nat)
    requires v < 64
    ensures !IsStop(SextetChar(v))
  {
  }

  /** std::string::find over the alphabet gives a character's value. */
  lemma {:induction false} FindSextetChar(v: nat)
    requires v < 64
    ensures FirstIndexOf(Alphabet, SextetChar(v)) == Some(v)
  {
    AlphabetChars();
    assert Alphabet[v] == SextetChar(v);
    var r := FirstIndexOf(Alphabet, SextetChar(v));
    SextetCharInjective(r.value, v);
  }

  lemma {:induction false} FindInAlphabet(c: char)
    ensures FirstIndexOf(Alphabet, c).Some? ==> FirstIndexOf(Alphabet, c).value < 64
  {
    AlphabetChars();
  }

  /** A 6-bit value, what one base64 character carries. */
  type Sextet = x: nat | x < 64

  /** The value of c, or None for a character outside the alphabet. */
  function SextetOf(c: char): (r: Option<Sextet>)
    ensures r.Some? ==> SextetChar(r.value) == c
  {
    if 'A' <= c <= 'Z' then Some(c as int - 'A' as int)
    else if 'a' <= c <= 'z' then Some(c as int - 'a' as int + 26)
    else if '0' <= c <= '9' then Some(c as int - '0' as int + 52)
    else if c == '+' then Some(62)
    else if c == '/' then Some(63)
    else None
  }

  /** Each character of the alphabet reads back as its own value. */
  lemma {:induction false} SextetOfChar(v: Sextet)
    ensures SextetOf(SextetChar(v)) == Some(v)
  {
  }

  /** SextetOf is std::string::find over the alphabet: the position of c when c is in it,
      and None exactly when it is not. */
  lemma {:induction false} SextetOfIsFind(c: char)
    ensures SextetOf(c).None? <==> c !in Alphabet
    ensures SextetOf(c).None? <==> FirstIndexOf(Alphabet, c).None?
    ensures SextetOf(c).Some? ==> FirstIndexOf(Alphabet, c) == Some(SextetOf(c).value as nat)
  {
    AlphabetChars();
    match SextetOf(c)
    case Some(v) =>
      FindSextetChar(v);
    case None =>
      if c in Alphabet {
        var r := FirstIndexOf(Alphabet, c).value;
        SextetOfChar(r);
      }
  }

  // ---------------------------------------------------------------- what decoding means

  /** The text before the first stop character. */
  function BeforeStop(s: string): (r: string)
    ensures |r| <= |s| && r == s[..|r|] && forall j :: 0 <= j < |r| ==> !IsStop(r[j])
    ensures |r| == |s| || IsStop(s[|r|])
    decreases |s|
  {
    if s == [] || IsStop(s[0]) then [] else [s[0]] + BeforeStop(s[1..])
  }

  /** The value of c if it has one, as a sequence of zero or one values. */
  function Found(c: char): (xs: seq<Sextet>)
    ensures |xs| <= 1
  {
    match SextetOf(c) case None => [] case Some(v) => [v]
  }

  /** The values of the alphabet characters of s, other characters skipped. */
  function Sextets(s: string): (xs: seq<Sextet>)
    ensures |xs| <= |s|
    decreases |s|
  {
    if s == [] then [] else Found(s[0]) + Sextets(s[1..])
  }

  /** The 6-bit groups laid end to end. */
  function SextetBits(xs: seq<Sextet>): (bs: seq<bool>)
    ensures |bs| == 6 * |xs|
  {
    if xs == [] then [] else BitsOf(xs[0], 6) + SextetBits(xs[1..])
  }

  /** Bytes cut from a bit string, eight bits each; a shorter tail is dropped. */
  function Pack(bs: seq<bool>): (r: seq<Byte>)
    ensures |r| == |bs| / 8
    decreases |bs|
  {
    if |bs| < 8 then [] else [ValueOf(bs[..8])] + Pack(bs[8..])
  }

  /** What decode_base64 returns: the alphabet characters before the first stop, read as
      6-bit groups and cut into bytes. */
  function Decoded(s: string): (r: seq<Byte>)
    ensures 4 * |r| <= 3 * |s|
  {
    Pack(SextetBits(Sextets(BeforeStop(s))))
  }

  /** The text before the first stop is the prefix that reaches a stop or the end. */
  lemma {:induction false} BeforeStopPrefix(s: string, i: nat)
    requires i <= |s| && NoStop(s[..i]) && (i == |s| || IsStop(s[i]))
    ensures BeforeStop(s) == s[..i]
  {
    var r := BeforeStop(s);
  }

  lemma {:induction false} SextetsAppend(a: string, b: string)
    ensures Sextets(a + b) == Sextets(a) + Sextets(b)
    decreases |a|
  {
    if a != [] {
      assert (a + b)[0] == a[0] && (a + b)[1..] == a[1..] + b;
      SextetsAppend(a[1..], b);
    } else {
      assert a + b == b;
    }
  }

  lemma {:induction false} SextetBitsAppend(xs: seq<Sextet>, ys: seq<Sextet>)
    ensures SextetBits(xs + ys) == SextetBits(xs) + SextetBits(ys)
    decreases |xs|
  {
    if xs != [] {
      assert (xs + ys)[0] == xs[0] && (xs + ys)[1..] == xs[1..] + ys;
      SextetBitsAppend(xs[1..], ys);
    } else {
      assert xs + ys == ys;
    }
  }

  lemma {:induction false} PackAppend(a: seq<bool>, b: seq<bool>)
    requires |a| % 8 == 0
    ensures Pack(a + b) == Pack(a) + Pack(b)
    decreases |a|
  {
    if a != [] {
      assert (a + b)[..8] == a[..8] && (a + b)[8..] == a[8..] + b;
      PackAppend(a[8..], b);
    } else {
      assert a + b == b;
    }
  }

  lemma {:induction false} BeforeStopAppend(a: string, t: string)
    requires forall j :: 0 <= j < |a| ==> !IsStop(a[j])
    ensures BeforeStop(a + t) == a + BeforeStop(t)
    decreases |a|
  {
    if a != [] {
      assert (a + t)[0] == a[0] && (a + t)[1..] == a[1..] + t;
      BeforeStopAppend(a[1..], t);
    } else {
      assert a + t == t;
    }
  }

  /** The number of bytes: ⌊6k/8⌋ for k alphabet characters before the first stop. */
  lemma {:induction false} DecodedLength(s: string)
    ensures |Decoded(s)| == 6 * |Sextets(BeforeStop(s))| / 8
  {
  }

  /** Decoding ends at the first '=', '\n' or '\r': what follows is never read. */
  lemma {:induction false} DecodeStopsAtStop(a: string, c: char, b: string)
    requires forall j :: 0 <= j < |a| ==> !IsStop(a[j])
    requires IsStop(c)
    ensures Decoded(a + [c] + b) == Decoded(a)
  {
    BeforeStopAppend(a, [c] + b);
    assert a + [c] + b == a + ([c] + b);
    BeforeStopAppend(a, []);
    assert a + [] == a;
  }

  /** A character outside the alphabet that is not a stop is skipped. */
  lemma {:induction false} DecodeSkipsOthers(a: string, c: char, b: string)
    requires forall j :: 0 <= j < |a| ==> !IsStop(a[j])
    requires !IsStop(c) && c !in Alphabet
    ensures Decoded(a + [c] + b) == Decoded(a + b)
  {
    var t := BeforeStop(b);
    assert a + [c] + b == a + ([c] + b);
    BeforeStopAppend(a, [c] + b);
    assert BeforeStop([c] + b) == [c] + t by {
      assert ([c] + b)[1..] == b;
    }
    BeforeStopAppend(a, b);
    SextetsAppend(a, [c] + t);
    assert Sextets([c] + t) == Sextets(t) by {
      assert ([c] + t)[1..] == t;
      SextetOfIsFind(c);
    }
    SextetsAppend(a, t);
  }

  // ---------------------------------------------------------------- decode_base64

  /** The decoder's state against the bits read so far: result holds the whole bytes,
      valb + 8 bits are pending, and the low valb + 8 bits of val are those bits. */
  predicate DecoderState(bits: seq<bool>, result: seq<Byte>, val: int, valb: int)
  {
    (valb == -8 || valb == -6 || valb == -4 || valb == -2) &&
    |bits| == 8 * |result| + valb + 8 && result == Pack(bits) &&
    0 <= val < 0x1000 && val % Pow2(valb + 8) == ValueOf(bits[8 * |result|..])
  }

  lemma {:induction false} Pow2Values()
    ensures Pow2(0) == 1 && Pow2(2) == 4 && Pow2(4) == 16 && Pow2(6) == 64
    ensures Pow2(8) == 256 && Pow2(10) == 1024 && Pow2(12) == 4096
  {
    assert Pow2(1) == 2 && Pow2(3) == 8 && Pow2(5) == 32 && Pow2(7) == 128 && Pow2(9) == 512 && Pow2(11) == 2048;
  }

  /** Shifting a 6-bit value into val, kept modulo 2^12, keeps the p pending bits below it. */
  lemma {:induction false} ShiftIn(val: int, x: nat, p: nat, w: nat)
    requires p == 0 || p == 2 || p == 4 || p == 6
    requires 0 <= val < 0x1000 && x < 64 && val % Pow2(p) == w
    ensures ((val * 64 + x) % 0x1000) % Pow2(p + 6) == w * 64 + x
  {
    assert Pow2(0) == 1 && Pow2(2) == 4 && Pow2(4) == 16 && Pow2(6) == 64 &&
      Pow2(8) == 256 && Pow2(10) == 1024 && Pow2(12) == 4096 by {
      Pow2Values();
    }
    if p == 0 {
      ShiftIn0(val, x);
    } else if p == 2 {
      ShiftIn2(val, x);
    } else if p == 4 {
      ShiftIn4(val, x);
    } else {
      ShiftIn6(val, x);
    }
  }

  lemma ShiftIn0(val: int, x: nat)
    requires 0 <= val < 0x1000 && x < 64
    ensures ((val * 64 + x) % 0x1000) % 64 == (val % 1) * 64 + x
  {
  }

  lemma ShiftIn2(val: int, x: nat)
    requires 0 <= val < 0x1000 && x < 64
    ensures ((val * 64 + x) % 0x1000) % 256 == (val % 4) * 64 + x
  {
    var m, q, r := val * 64 + x, val / 4, val % 4;
    assert m == 256 * q + (64 * r + x);
    var a, b := m / 0x1000, m % 0x1000;
    assert m == 256 * (16 * a) + b;
    ModShift(16 * a, b);
    ModShift(q, 64 * r + x);
  }

  lemma ShiftIn4(val: int, x: nat)
    requires 0 <= val < 0x1000 && x < 64
    ensures ((val * 64 + x) % 0x1000) % 1024 == (val % 16) * 64 + x
  {
    var m, q, r := val * 64 + x, val / 16, val % 16;
    assert m == 1024 * q + (64 * r + x);
    var a, b := m / 0x1000, m % 0x1000;
    assert m == 1024 * (4 * a) + b;
    ModShiftKilo(4 * a, b);
    ModShiftKilo(q, 64 * r + x);
  }

  lemma {:induction false} ModShiftKilo(m: nat, t: nat)
    ensures (1024 * m + t) % 1024 == t % 1024
  {
  }

  lemma ShiftIn6(val: int, x: nat)
    requires 0 <= val < 0x1000 && x < 64
    ensures ((val * 64 + x) % 0x1000) % 4096 == (val % 64) * 64 + x
  {
  }

  /** With q bits pending, the byte emitted is the top eight of them and the rest stay. */
  lemma {:induction false} Extract(v: int, q: nat, hi: nat, lo: nat)
    requires q == 8 || q == 10 || q == 12
    requires 0 <= v < 0x1000 && hi < 256 && lo < Pow2(q - 8) && v % Pow2(q) == hi * Pow2(q - 8) + lo
    ensures (v / Pow2(q - 8)) % 0x100 == hi && v % Pow2(q - 8) == lo
  {
    assert Pow2(0) == 1 && Pow2(2) == 4 && Pow2(4) == 16 &&
      Pow2(8) == 256 && Pow2(10) == 1024 && Pow2(12) == 4096 by {
      Pow2Values();
    }
    if q == 8 {
      Extract8(v, hi, lo);
    } else if q == 10 {
      Extract10(v, hi, lo);
    } else {
      Extract12(v, hi, lo);
    }
  }

  lemma Extract8(v: int, hi: nat, lo: nat)
    requires 0 <= v < 0x1000 && hi < 256 && lo < 1 && v % 256 == hi * 1 + lo
    ensures (v / 1) % 0x100 == hi && v % 1 == lo
  {
  }

  lemma Extract10(v: int, hi: nat, lo: nat)
    requires 0 <= v < 0x1000 && hi < 256 && lo < 4 && v % 1024 == hi * 4 + lo
    ensures (v / 4) % 0x100 == hi && v % 4 == lo
  {
  }

  lemma Extract12(v: int, hi: nat, lo: nat)
    requires 0 <= v < 0x1000 && hi < 256 && lo < 16 && v % 4096 == hi * 16 + lo
    ensures (v / 16) % 0x100 == hi && v % 16 == lo
  {
  }

  /** Bits added after fewer than eight pending bits land behind them. */
  lemma {:induction false} PackPending(bits: seq<bool>, result: seq<Byte>, more: seq<bool>)
    requires result == Pack(bits) && 8 * |result| <= |bits| < 8 * |result| + 8
    ensures (bits + more)[8 * |result|..] == bits[8 * |result|..] + more
    ensures Pack(bits + more) == result + Pack((bits + more)[8 * |result|..])
  {
    var r := 8 * |result|;
    assert bits == bits[..r] + bits[r..];
    assert bits + more == bits[..r] + (bits + more)[r..];
    PackAppend(bits[..r], bits[r..]);
    PackAppend(bits[..r], (bits + more)[r..]);
  }

  lemma {:induction false} ValuePending(pending: seq<bool>, x: nat)
    requires x < 64
    ensures ValueOf(pending + BitsOf(x, 6)) == ValueOf(pending) * 64 + x
  {
    ValueOfAppend(pending, BitsOf(x, 6));
    ValueOfBitsOf(x, 6);
    Pow2Values();
  }

  /** Six more bits read: the pending bits grow by them, and val still ends in all of them. */
  lemma {:induction false} ShiftedBits(bits: seq<bool>, result: seq<Byte>, val: int, valb: int, x: nat)
    requires DecoderState(bits, result, val, valb) && x < 64
    ensures var bits' := bits + BitsOf(x, 6);
      |bits'| == 8 * |result| + valb + 14 && Pack(bits') == result + Pack(bits'[8 * |result|..]) &&
      ((val * 64 + x) % 0x1000) % Pow2(valb + 14) == ValueOf(bits'[8 * |result|..])
  {
    var pending := bits[8 * |result|..];
    PackPending(bits, result, BitsOf(x, 6));
    ValuePending(pending, x);
    ShiftIn(val, x, valb + 8, ValueOf(pending));
  }

  /** The low eight bits of a value, as & 0xFF takes them. */
  function LowByte(v: int): (b: Byte)
  {
    v % 0x100
  }

  /** A character read with two or more bits pending emits the byte above the rest. */
  lemma {:induction false} DecodeStepEmit(bits: seq<bool>, result: seq<Byte>, val: int, valb: int, x: nat)
    requires DecoderState(bits, result, val, valb) && x < 64 && valb + 6 >= 0
    ensures var val' := (val * 64 + x) % 0x1000;
      DecoderState(bits + BitsOf(x, 6), result + [LowByte(val' / Pow2(valb + 6))], val', valb - 2)
  {
    var r := 8 * |result|;
    var bits' := bits + BitsOf(x, 6);
    var val' := (val * 64 + x) % 0x1000;
    ShiftedBits(bits, result, val, valb, x);
    var pending' := bits'[r..];
    var first := pending'[..8];
    var rest := pending'[8..];
    assert pending' == first + rest;
    assert Pack(pending') == [ValueOf(first)] by {
      assert Pack(rest) == [];
    }
    assert bits'[8 * (|result| + 1)..] == rest;
    ValueOfAppend(first, rest);
    Extract(val', valb + 14, ValueOf(first), ValueOf(rest));
  }

  /** A character read with nothing pending only shifts its six bits in. */
  lemma {:induction false} DecodeStepHold(bits: seq<bool>, result: seq<Byte>, val: int, valb: int, x: nat)
    requires DecoderState(bits, result, val, valb) && x < 64 && valb + 6 < 0
    ensures DecoderState(bits + BitsOf(x, 6), result, (val * 64 + x) % 0x1000, valb + 6)
  {
    ShiftedBits(bits, result, val, valb, x);
    assert Pack((bits + BitsOf(x, 6))[8 * |result|..]) == [];
  }

  /** Reading one more character adds the six bits of its value, or nothing for a
      character outside the alphabet. */
  lemma {:induction false} ReadOne(s: string, i: nat)
    requires i < |s|
    ensures SextetOf(s[i]).None? ==> Sextets(s[..i + 1]) == Sextets(s[..i])
    ensures SextetOf(s[i]).Some? ==>
      SextetBits(Sextets(s[..i + 1])) == SextetBits(Sextets(s[..i])) + BitsOf(SextetOf(s[i]).value, 6)
  {
    var c := s[i];
    assert s[..i + 1] == s[..i] + [c];
    SextetsAppend(s[..i], [c]);
    assert Sextets([c]) == Found(c) by {
      assert [c][1..] == [];
    }
    match SextetOf(c)
    case None =>
      assert Sextets(s[..i] + [c]) == Sextets(s[..i]) + [];
    case Some(v) =>
      SextetBitsAppend(Sextets(s[..i]), [v]);
      assert SextetBits([v]) == BitsOf(v, 6) + [];
  }

  /** decode_base64 shifts val without bound, but the low twelve bits of the shifted value
      depend only on the low twelve bits of the old one... */
  lemma {:induction false} LowBitsShift(v: nat, x: Sextet)
    ensures (v * 64 + x) % 0x1000 == ((v % 0x1000) * 64 + x) % 0x1000
  {
    var q, r := v / 0x1000, v % 0x1000;
    assert v == 0x1000 * q + r;
    assert v * 64 + x == 0x40000 * q + (r * 64 + x);
    ModMultiple(q, r * 64 + x);
  }

  lemma {:induction false} ModMultiple(q: int, m: int)
    ensures (0x40000 * q + m) % 0x1000 == m % 0x1000
  {
  }

  /** ...and with at most four bits below the byte, the byte emitted lies in them too, so
      keeping val modulo 2^12 emits the same bytes. */
  lemma {:induction false} LowBitsByte(v: nat, b: nat)
    requires b == 0 || b == 2 || b == 4
    ensures LowByte(v / Pow2(b)) == LowByte((v % 0x1000) / Pow2(b))
  {
    Pow2Values();
    var q := v / 0x1000;
    var r := v % 0x1000;
    assert v == 0x1000 * q + r;
    if b == 0 {
      assert v / 1 == v && r / 1 == r;
      ModShift(16 * q, r);
    } else if b == 2 {
      assert v == 4 * (1024 * q) + r;
      DivFour(1024 * q, r);
      ModShift(4 * q, r / 4);
    } else {
      assert v == 16 * (256 * q) + r;
      DivSixteen(256 * q, r);
      ModShift(q, r / 16);
    }
  }

  lemma {:induction false} DivFour(k: nat, r: nat)
    ensures (4 * k + r) / 4 == k + r / 4
  {
  }

  lemma {:induction false} DivSixteen(k: nat, r: nat)
    ensures (16 * k + r) / 16 == k + r / 16
  {
  }

  lemma {:induction false} ModShift(m: nat, t: nat)
    ensures (256 * m + t) % 256 == t % 256
  {
  }

  /** The body of decode_base64's loop for one alphabet character: x is shifted into val,
      and once eight or more bits are pending the byte above the rest is emitted. The
      decoder stays in step with the bits read. */
  method ShiftIn6Bits(ghost bits: seq<bool>, result: seq<Byte>, val: int, valb: int, x: Sextet)
    returns (result': seq<Byte>, val': int, valb': int)
    requires DecoderState(bits, result, val, valb)
    ensures DecoderState(bits + BitsOf(x, 6), result', val', valb')
  {
    val' := (val * 64 + x) % 0x1000;
    valb' := valb + 6;
    result' := result;
    if valb' >= 0 {
      DecodeStepEmit(bits, result, val, valb, x);
      result' := result + [LowByte(val' / Pow2(valb'))];
      valb' := valb' - 8;
    } else {
      DecodeStepHold(bits, result, val, valb, x);
    }
  }

  /** SSHFingerprint::decode_base64: reads characters until a stop, skipping those outside
      the alphabet and shifting the value of each other one in. val is kept modulo 2^12,
      which holds every bit still to be emitted. */
  method DecodeBase64(encoded: string) returns (result: seq<Byte>)
    ensures result == Decoded(encoded)
  {
    result := [];
    var val := 0;
    var valb := -8;
    var i := 0;
    assert DecoderState([], result, val, valb) by {
      assert Pow2(0) == 1;
    }
    assert encoded[..0] == [];
    while i < |encoded|
      invariant 0 <= i <= |encoded|
      invariant NoStop(encoded[..i])
      invariant DecoderState(SextetBits(Sextets(encoded[..i])), result, val, valb)
    {
      var c := encoded[i];
      if IsStop(c) {
        break;
      }
      assert NoStop(encoded[..i + 1]) by {
        assert encoded[..i + 1] == encoded[..i] + [c];
      }
      var pos := SextetOf(c);
      if pos.Some? {
        result, val, valb := ShiftIn6Bits(SextetBits(Sextets(encoded[..i])), result, val, valb, pos.value);
      }
      assert DecoderState(SextetBits(Sextets(encoded[..i + 1])), result, val, valb) by {
        ReadOne(encoded, i);
      }
      i := i + 1;
    }
    BeforeStopPrefix(encoded, i);
  }

  // ---------------------------------------------------------------- an RFC 4648 encoder

  /** The bits of a byte string, eight per byte, most significant first. */
  function ByteBits(bytes: seq<Byte>): (bs: seq<bool>)
    ensures |bs| == 8 * |bytes|
  {
    if bytes == [] then [] else BitsOf(bytes[0], 8) + ByteBits(bytes[1..])
  }

  /** Six bits per character; a last group shorter than six is filled with zero bits. */
  function EncodeBits(bs: seq<bool>): string
    decreases |bs|
  {
    if bs == [] then []
    else if |bs| < 6 then [SextetChar(ValueOf(bs + Zeros(6 - |bs|)))]
    else [SextetChar(ValueOf(bs[..6]))] + EncodeBits(bs[6..])
  }

  /** Base64 as section 4 of RFC 4648 defines it: the characters, then '=' up to a multiple
      of four. */
  function Encode(bytes: seq<Byte>): string
  {
    var chars := EncodeBits(ByteBits(bytes));
    chars + Padding(|chars|)
  }

  /** The '=' characters that bring n characters up to a multiple of four. */
  function Padding(n: nat): (pad: string)
    ensures (n + |pad|) % 4 == 0 && |pad| < 4
    ensures forall j :: 0 <= j < |pad| ==> pad[j] == '='
  {
    seq((4 - n % 4) % 4, _ => '=')
  }

  lemma {:induction false} EncodeBitsNoStop(bs: seq<bool>)
    ensures forall j :: 0 <= j < |EncodeBits(bs)| ==> !IsStop(EncodeBits(bs)[j])
    decreases |bs|
  {
    if bs != [] {
      Pow2Values();
      if |bs| < 6 {
        SextetCharNotStop(ValueOf(bs + Zeros(6 - |bs|)));
      } else {
        SextetCharNotStop(ValueOf(bs[..6]));
        EncodeBitsNoStop(bs[6..]);
      }
    }
  }

  /** One encoded character reads back as its value. */
  lemma {:induction false} SextetsOfChar(v: Sextet)
    ensures Sextets([SextetChar(v)]) == [v]
  {
    assert [SextetChar(v)][1..] == [];
  }

  /** Six bits turned into a character and read back. */
  lemma {:induction false} SextetBitsOfChar(g: seq<bool>)
    requires |g| == 6
    ensures ValueOf(g) < 64 && SextetBits(Sextets([SextetChar(ValueOf(g))])) == g
  {
    Pow2Values();
    SextetsOfChar(ValueOf(g));
    BitsOfValueOf(g);
    assert SextetBits([ValueOf(g)]) == BitsOf(ValueOf(g), 6) + [];
  }

  /** The zero bits that fill the last character of an encoding of n bits. */
  function Fill(n: nat): (z: nat)
    ensures z < 6 && (n + z) % 6 == 0
  {
    (6 - n % 6) % 6
  }

  /** Decoding the characters gives the bits back, with the zero fill. */
  lemma {:induction false} EncodeBitsRead(bs: seq<bool>)
    ensures SextetBits(Sextets(EncodeBits(bs))) == bs + Zeros(Fill(|bs|))
    decreases |bs|
  {
    if bs == [] {
      assert bs + Zeros(0) == bs;
    } else if |bs| < 6 {
      assert Fill(|bs|) == 6 - |bs|;
      SextetBitsOfChar(bs + Zeros(6 - |bs|));
    } else {
      EncodeBitsReadCons(bs);
    }
  }

  /** Six more bits need the same fill. */
  lemma FillShift(n: nat)
    requires n >= 6
    ensures Fill(n) == Fill(n - 6)
  {
    assert n % 6 == (n - 6) % 6;
  }

  lemma {:induction false} EncodeBitsReadCons(bs: seq<bool>)
    requires |bs| >= 6
    ensures SextetBits(Sextets(EncodeBits(bs))) == bs + Zeros(Fill(|bs|))
    decreases |bs|, 0
  {
    var head := bs[..6];
    var c := SextetChar(ValueOf(head));
    var tail := EncodeBits(bs[6..]);
    var z := Zeros(Fill(|bs|));
    FillShift(|bs|);
    calc {
      SextetBits(Sextets(EncodeBits(bs)));
      SextetBits(Sextets([c] + tail));
      { SextetsAppend([c], tail); }
      SextetBits(Sextets([c]) + Sextets(tail));
      { SextetBitsAppend(Sextets([c]), Sextets(tail)); }
      SextetBits(Sextets([c])) + SextetBits(Sextets(tail));
      { SextetBitsOfChar(head); EncodeBitsRead(bs[6..]); }
      head + (bs[6..] + z);
      { assert bs == head + bs[6..]; }
      bs + z;
    }
  }

  lemma {:induction false} PackByteBits(bytes: seq<Byte>, z: nat)
    requires z < 8
    ensures Pack(ByteBits(bytes) + Zeros(z)) == bytes
    decreases |bytes|
  {
    if bytes != [] {
      var head := BitsOf(bytes[0], 8);
      var rest := ByteBits(bytes[1..]) + Zeros(z);
      assert ByteBits(bytes) + Zeros(z) == head + rest;
      assert (head + rest)[..8] == head && (head + rest)[8..] == rest;
      Pow2Values();
      ValueOfBitsOf(bytes[0], 8);
      PackByteBits(bytes[1..], z);
    } else {
      assert ByteBits(bytes) + Zeros(z) == Zeros(z);
    }
  }

  /** Decoding an encoding stops at its padding. */
  lemma {:induction false} EncodeBeforeStop(bytes: seq<Byte>)
    ensures BeforeStop(Encode(bytes)) == EncodeBits(ByteBits(bytes))
  {
    var chars := EncodeBits(ByteBits(bytes));
    var pad := Padding(|chars|);
    EncodeBitsNoStop(ByteBits(bytes));
    BeforeStopAppend(chars, pad);
    assert BeforeStop(pad) == [] by {
      assert pad == [] || IsStop(pad[0]);
    }
    assert chars + [] == chars;
  }

  /** decode_base64 reverses section 4 of RFC 4648: decoding an encoding gives the bytes
      back. */
  lemma {:induction false} DecodeEncode(bytes: seq<Byte>)
    ensures Decoded(Encode(bytes)) == bytes
  {
    var bs := ByteBits(bytes);
    calc {
      Decoded(Encode(bytes));
      { EncodeBeforeStop(bytes); }
      Pack(SextetBits(Sextets(EncodeBits(bs))));
      { EncodeBitsRead(bs); }
      Pack(bs + Zeros(Fill(|bs|)));
      { PackByteBits(bytes, Fill(|bs|)); }
      bytes;
    }
  }

  // ---------------------------------------------------------------- picking the key line

  /** The leading run of non-space characters. */
  function TakeWord(s: string): (w: string)
    ensures |w| <= |s| && w == s[..|w|] && forall j :: 0 <= j < |w| ==> !IsCSpace(w[j])
    ensures |w| == |s| || IsCSpace(s[|w|])
    decreases |s|
  {
    if s == [] || IsCSpace(s[0]) then [] else [s[0]] + TakeWord(s[1..])
  }

  /** A word: a non-empty run of non-space characters. */
  predicate IsWord(w: string)
  {
    w != [] && forall j :: 0 <= j < |w| ==> !IsCSpace(w[j])
  }

  /** The words operator>> extracts from a line, one after another. */
  function Words(s: string): (ws: seq<string>)
    ensures ws == [] <==> DropCSpace(s) == []
    decreases |s|
  {
    var t := DropCSpace(s);
    if t == [] then []
    else
      var w := TakeWord(t);
      assert |w| > 0;
      [w] + Words(t[|w|..])
  }

  /** Every word extracted is a non-empty run of non-space characters. */
  lemma {:induction false} WordsAreWords(s: string)
    ensures forall i :: 0 <= i < |Words(s)| ==> IsWord(Words(s)[i])
    decreases |s|
  {
    var t := DropCSpace(s);
    if t != [] {
      var w := TakeWord(t);
      var rest := Words(t[|w|..]);
      WordsAreWords(t[|w|..]);
      assert Words(s) == [w] + rest;
      assert IsWord(w);
      forall i | 0 <= i < |Words(s)| ensures IsWord(Words(s)[i]) {
        if i > 0 {
          assert Words(s)[i] == rest[i - 1];
        }
      }
    }
  }

  /** A line read for a key: not empty, not a '#' comment, with host, type and key fields. */
  predicate KeyLine(line: string)
  {
    line != [] && line[0] != '#' && |Words(line)| >= 3
  }

  /** Line i is the first key line. */
  predicate FirstKeyLine(lines: seq<string>, i: int)
  {
    0 <= i < |lines| && KeyLine(lines[i]) && forall j :: 0 <= j < i ==> !KeyLine(lines[j])
  }

  /** The key field of the first key line. */
  function FirstKey(lines: seq<string>): (r: Option<string>)
    decreases |lines|
  {
    if lines == [] then None
    else if KeyLine(lines[0]) then Some(Words(lines[0])[2])
    else FirstKey(lines[1..])
  }

  /** The key is the third word of the first key line, and there is one exactly when some
      line is a key line. */
  lemma {:induction false} FirstKeyIsFirst(lines: seq<string>)
    ensures FirstKey(lines).Some? <==> exists i :: 0 <= i < |lines| && KeyLine(lines[i])
    ensures FirstKey(lines).Some? ==>
      exists i :: FirstKeyLine(lines, i) && FirstKey(lines).value == Words(lines[i])[2]
    decreases |lines|
  {
    if lines != [] && !KeyLine(lines[0]) {
      FirstKeyIsFirst(lines[1..]);
      forall i | 0 <= i < |lines[1..]| ensures lines[1..][i] == lines[i + 1] {}
      if FirstKey(lines).Some? {
        var i :| FirstKeyLine(lines[1..], i) && FirstKey(lines[1..]).value == Words(lines[1..][i])[2];
        assert KeyLine(lines[i + 1]);
        forall j | 0 <= j < i + 1 ensures !KeyLine(lines[j]) {
          if j > 0 { assert lines[j] == lines[1..][j - 1]; }
        }
        assert FirstKeyLine(lines, i + 1);
      }
      if exists i :: 0 <= i < |lines| && KeyLine(lines[i]) {
        var i :| 0 <= i < |lines| && KeyLine(lines[i]);
        assert i > 0 && KeyLine(lines[1..][i - 1]);
      }
    } else if lines != [] {
      assert FirstKeyLine(lines, 0);
    }
  }

  /** The parsing half of SSHFingerprint::get_host_key, given the text ssh-keyscan printed:
      lines are read in order, empty and '#' lines skipped, and the third word of the
      first line with three words is decoded; with no such line the key is empty. */
  method HostKeyFromScan(output: string) returns (key: seq<Byte>)
    ensures key == match FirstKey(GetlineSplit(output, '\n')) case None => [] case Some(k) => Decoded(k)
  {
    var lines := Split(output, '\n');
    var i := 0;
    while i < |lines|
      invariant 0 <= i <= |lines|
      invariant FirstKey(lines) == FirstKey(lines[i..])
    {
      assert lines[i..][1..] == lines[i + 1..];
      var line := lines[i];
      if line == [] || line[0] == '#' {
        i := i + 1;
        continue;
      }
      var words := Words(line);
      if |words| >= 3 {
        key := DecodeBase64(words[2]);
        return;
      }
      i := i + 1;
    }
    key := [];
  }
}
