// RFC 4648 section 4 base 64: base64_enc and base64_dec of oath_base64.c.

module Base64 {
  import opened CTypes
  import opened Rfc4648
  import opened Buffers

  /**
   * b64dec[c], a table of signed chars: the value of an alphabet character,
   * -1 for the 0xff rows.
   */
  function B64Dec(c: char): (r: int)
    ensures -1 <= r < 64
  {
    if 'A' <= c <= 'Z' then c as int - 'A' as int
    else if 'a' <= c <= 'z' then c as int - 'a' as int + 26
    else if '0' <= c <= '9' then c as int - '0' as int + 52
    else if c == '+' then 62
    else if c == '/' then 63
    else -1
  }

  /** The alphabet character for the 6-bit value v. */
  function B64Char(v: int): char
    requires 0 <= v < 64
  {
    if v < 26 then ('A' as int + v) as char
    else if v < 52 then ('a' as int + v - 26) as char
    else if v < 62 then ('0' as int + v - 52) as char
    else if v == 62 then '+'
    else '/'
  }

  const Upper := "ABCDEFGHIJKLMNOPQRSTUVWXYZ"
  const Lower := "abcdefghijklmnopqrstuvwxyz"
  const Digits := "0123456789"

  /** b64enc: the base 64 alphabet, indexed by a 6-bit value. */
  const B64Enc: string := Upper + Lower + Digits + "+/"

  /** The table b64enc is the alphabet B64Char spells out. */
  lemma B64EncTable(v: int)
    requires 0 <= v < 64
    ensures B64Enc[v] == B64Char(v)
  {
    if v < 26 {
      UpperTable(v);
    } else if v < 52 {
      LowerTable(v - 26);
    } else if v < 62 {
      DigitsTable(v - 52);
    }
  }

  lemma UpperTable(v: int)
    requires 0 <= v < 26
    ensures Upper[v] == ('A' as int + v) as char
  {
  }

  lemma LowerTable(v: int)
    requires 0 <= v < 26
    ensures Lower[v] == ('a' as int + v) as char
  {
  }

  lemma DigitsTable(v: int)
    requires 0 <= v < 10
    ensures Digits[v] == ('0' as int + v) as char
  {
  }

  /** Every alphabet character decodes to its own value, and none is whitespace, '=' or NUL. */
  lemma B64DecInvertsB64Char(v: int)
    requires 0 <= v < 64
    ensures B64Dec(B64Char(v)) == v
    ensures !IsSpace(B64Char(v)) && B64Char(v) != '=' && B64Char(v) != '\0'
  {
  }

  /** Only alphabet characters have a value, and each is the character of that value. */
  lemma B64CharInvertsB64Dec(c: char)
    requires B64Dec(c) >= 0
    ensures B64Dec(c) < 64 && B64Char(B64Dec(c)) == c
  {
  }

  lemma SymbolAsBits(v: bv8)
    requires v < 64
    ensures ((v as int) as byte) as bv32 == v as bv32
  {
  }

  // ---------------------------------------------------------------------
  // Encoding, as RFC 4648 defines it: four 6-bit symbols per three bytes

  function T0(b0: byte): bv8 { b0 >> 2 }
  function T1(b0: byte, b1: byte): bv8 { ((b0 & 3) << 4) | (b1 >> 4) }
  function T2(b1: byte, b2: byte): bv8 { ((b1 & 15) << 2) | (b2 >> 6) }
  function T3(b2: byte): bv8 { b2 & 63 }

  /** The four 6-bit symbol values of a three-byte group, most significant first. */
  function GroupSymbols(g: seq<byte>): (v: seq<bv8>)
    requires |g| == 3
    ensures |v| == 4 && forall j | 0 <= j < 4 :: v[j] < 64
  {
    [T0(g[0]), T1(g[0], g[1]), T2(g[1], g[2]), T3(g[2])]
  }

  /** A final group completed with zero bytes. */
  function Pad3(g: seq<byte>): (r: seq<byte>)
    requires |g| <= 3
    ensures |r| == 3 && r[..|g|] == g
  {
    g + seq(3 - |g|, _ => 0)
  }

  /** How many of the four characters of a group of n bytes are symbols rather than '='. */
  function SymbolCount(n: nat): nat
  {
    if n == 1 then 2 else if n == 2 then 3 else 4
  }

  /** The characters of a sequence of symbol values. */
  function Chars(vs: seq<bv8>): (r: string)
    requires forall j | 0 <= j < |vs| :: vs[j] < 64
    ensures |r| == |vs|
  {
    seq(|vs|, j requires 0 <= j < |vs| => B64Char(vs[j] as int))
  }

  /** The symbol characters of a group of 1 to 3 bytes, completed with zero bits. */
  function Symbols(g: seq<byte>): (r: string)
    requires 1 <= |g| <= 3
    ensures |r| == SymbolCount(|g|)
  {
    Chars(GroupSymbols(Pad3(g))[..SymbolCount(|g|)])
  }

  /**
   * The four characters of one group of up to three bytes: a full group
   * is four symbols; a final group of 1 or 2 bytes, completed with zero
   * bits, gives 2 or 3 symbols and '=' up to four.
   */
  function EncodeGroup(g: seq<byte>): (r: string)
    requires 1 <= |g| <= 3
    ensures |r| == 4
  {
    Symbols(g) + Pads(4 - SymbolCount(|g|))
  }

  /** The base 64 encoding of `s` (without the terminating NUL). */
  function Encode(s: seq<byte>): string
    decreases |s|
  {
    if |s| == 0 then []
    else if |s| >= 3 then EncodeGroup(s[..3]) + Encode(s[3..])
    else EncodeGroup(s)
  }

  /** The encoding is base64_enclen(|s|) characters long. */
  lemma {:induction false} EncodeLength(s: seq<byte>)
    ensures |Encode(s)| == Base64EncLen(|s|)
    decreases |s|
  {
    if |s| >= 3 {
      EncodeLength(s[3..]);
      Base64EncLenStep(|s|);
    } else {
      Base64EncLenStep(|s|);
    }
  }

  /** Every character of an encoding is an alphabet symbol or '='; none is a NUL. */
  lemma {:induction false} EncodeCharacters(s: seq<byte>)
    ensures forall j | 0 <= j < |Encode(s)| :: B64Dec(Encode(s)[j]) >= 0 || Encode(s)[j] == '='
    ensures '\0' !in Encode(s)
    decreases |s|
  {
    if |s| > 0 {
      var g := if |s| >= 3 then s[..3] else s;
      var v := GroupSymbols(Pad3(g));
      forall j | 0 <= j < 4
        ensures B64Dec(B64Char(v[j] as int)) >= 0 && B64Char(v[j] as int) != '\0'
      {
        B64DecInvertsB64Char(v[j] as int);
      }
      if |s| >= 3 {
        EncodeCharacters(s[3..]);
      }
    }
  }

  /** Encoding whole groups, then the rest, is encoding the concatenation. */
  lemma {:induction false} EncodeConcat(a: seq<byte>, b: seq<byte>)
    requires |a| % 3 == 0
    ensures Encode(a + b) == Encode(a) + Encode(b)
    decreases |a|
  {
    if |a| > 0 {
      assert (a + b)[..3] == a[..3];
      assert (a + b)[3..] == a[3..] + b;
      EncodeConcat(a[3..], b);
    } else {
      assert a + b == b;
    }
  }

  /** After q whole groups, the encoding goes on with the encoding of the rest. */
  lemma EncodeSuffix(s: seq<byte>, q: nat)
    requires 3 * q <= |s|
    ensures 4 * q <= |Encode(s)| && Encode(s)[4 * q..] == Encode(s[3 * q..])
  {
    var a := s[..3 * q];
    var b := s[3 * q..];
    assert a + b == s;
    WholeGroups(q);
    EncodeConcat(a, b);
    EncodeLength(a);
    Base64EncLenAt(3 * q, q);
  }

  lemma WholeGroups(q: nat)
    ensures (3 * q) % 3 == 0
  {
  }

  /** After the last whole group, at most one (partial) group of characters follows. */
  lemma EncodeTail(s: seq<byte>, q: nat)
    requires 3 * q <= |s| < 3 * q + 3
    ensures |s| == 3 * q ==> |Encode(s)| == 4 * q
    ensures |s| > 3 * q ==> |Encode(s)| == 4 * q + 4
  {
    EncodeSuffix(s, q);
    assert |Encode(s)| == 4 * q + |Encode(s[3 * q..])|;
  }

  /** The characters 4q … 4q+3 of an encoding are the encoding of bytes 3q … 3q+2 (or up to the end). */
  lemma EncodeAt(s: seq<byte>, q: nat)
    requires 3 * q < |s|
    ensures |Encode(s)| >= 4 * q + 4
    ensures 3 * q + 3 <= |s| ==> Encode(s)[4 * q .. 4 * q + 4] == EncodeGroup(s[3 * q .. 3 * q + 3])
    ensures 3 * q + 3 > |s| ==> Encode(s)[4 * q .. 4 * q + 4] == EncodeGroup(s[3 * q ..])
  {
    EncodeSuffix(s, q);
    var t := s[3 * q..];
    assert Encode(s)[4 * q .. 4 * q + 4] == Encode(t)[..4];
    if |t| >= 3 {
      assert t[..3] == s[3 * q .. 3 * q + 3];
    }
  }

  // ---------------------------------------------------------------------
  // The encoder as the C code computes it: a 24-bit group in a uint32_t

  /** `bits` after the three `bits |= (uint32_t)in[k] << (16 - 8k)` lines. */
  function GroupBits(b0: byte, b1: byte, b2: byte): bv32
  {
    ((b0 as bv32) << 16) | ((b1 as bv32) << 8) | (b2 as bv32)
  }

  /** `b64enc[x & 0x3f]`: the table entry for the low six bits of `x` (B64EncTable). */
  function Sym(x: bv32): char
  {
    B64Char((x & 0x3f) as int)
  }

  lemma SymTable(x: bv32, v: bv8)
    requires v < 64 && x & 0x3f == v as bv32
    ensures Sym(x) == B64Char(v as int)
  {
    assert (x & 0x3f) as int == v as int;
  }

  /** The four characters base64_enc writes for a group of n bytes whose bits are `bits`. */
  function CGroup(bits: bv32, n: nat): (r: string)
    ensures |r| == 4
  {
    [Sym(bits >> 18),
     Sym(bits >> 12),
     if n > 1 then Sym(bits >> 6) else '=',
     if n > 2 then Sym(bits) else '=']
  }

  lemma Bits0(b0: byte, b1: byte, b2: byte)
    ensures (GroupBits(b0, b1, b2) >> 18) & 0x3f == T0(b0) as bv32
  {
  }

  lemma Sym0(b0: byte, b1: byte, b2: byte)
    ensures Sym(GroupBits(b0, b1, b2) >> 18) == B64Char(T0(b0) as int)
  {
    Bits0(b0, b1, b2);
    SymTable(GroupBits(b0, b1, b2) >> 18, T0(b0));
  }

  lemma Bits1(b0: byte, b1: byte, b2: byte)
    ensures (GroupBits(b0, b1, b2) >> 12) & 0x3f == T1(b0, b1) as bv32
  {
  }

  lemma Sym1(b0: byte, b1: byte, b2: byte)
    ensures Sym(GroupBits(b0, b1, b2) >> 12) == B64Char(T1(b0, b1) as int)
  {
    Bits1(b0, b1, b2);
    SymTable(GroupBits(b0, b1, b2) >> 12, T1(b0, b1));
  }

  lemma Bits2(b0: byte, b1: byte, b2: byte)
    ensures (GroupBits(b0, b1, b2) >> 6) & 0x3f == T2(b1, b2) as bv32
  {
  }

  lemma Sym2(b0: byte, b1: byte, b2: byte)
    ensures Sym(GroupBits(b0, b1, b2) >> 6) == B64Char(T2(b1, b2) as int)
  {
    Bits2(b0, b1, b2);
    SymTable(GroupBits(b0, b1, b2) >> 6, T2(b1, b2));
  }

  lemma Bits3(b0: byte, b1: byte, b2: byte)
    ensures GroupBits(b0, b1, b2) & 0x3f == T3(b2) as bv32
  {
  }

  lemma Sym3(b0: byte, b1: byte, b2: byte)
    ensures Sym(GroupBits(b0, b1, b2)) == B64Char(T3(b2) as int)
  {
    Bits3(b0, b1, b2);
    SymTable(GroupBits(b0, b1, b2), T3(b2));
  }

  /** What base64_enc writes for a group of n bytes b0 b1 b2 (zero past n): its symbols, then '='. */
  lemma CGroupSymbols(b0: byte, b1: byte, b2: byte, n: nat)
    ensures CGroup(GroupBits(b0, b1, b2), n) ==
      [B64Char(T0(b0) as int),
       B64Char(T1(b0, b1) as int),
       if n > 1 then B64Char(T2(b1, b2) as int) else '=',
       if n > 2 then B64Char(T3(b2) as int) else '=']
  {
    Sym0(b0, b1, b2);
    Sym1(b0, b1, b2);
    Sym2(b0, b1, b2);
    Sym3(b0, b1, b2);
  }

  /** The four characters of a group: its symbols, then '=' where the group has no bits. */
  lemma EncodeGroupChars(g: seq<byte>, v: seq<bv8>)
    requires 1 <= |g| <= 3 && v == GroupSymbols(Pad3(g))
    ensures EncodeGroup(g) ==
      [B64Char(v[0] as int),
       B64Char(v[1] as int),
       if |g| > 1 then B64Char(v[2] as int) else '=',
       if |g| > 2 then B64Char(v[3] as int) else '=']
  {
  }

  /** The C computation of a group is the RFC 4648 encoding of the group. */
  lemma CGroupEncodes(g: seq<byte>, p: seq<byte>)
    requires 1 <= |g| <= 3 && p == Pad3(g)
    ensures CGroup(GroupBits(p[0], p[1], p[2]), |g|) == EncodeGroup(g)
  {
    EncodeGroupChars(g, GroupSymbols(p));
    CGroupSymbols(p[0], p[1], p[2], |g|);
  }

  /**
   * The four `out[k] = …` assignments of base64_enc: `c` is what they
   * store, CGroup of the group's bits.
   */
  method PutGroup(out: array<char>, o: nat, c: seq<char>)
    requires o + 4 <= out.Length && |c| == 4
    modifies out
    ensures out[..] == old(out[..o]) + c + old(out[o + 4..])
  {
    out[o] := c[0];
    out[o + 1] := c[1];
    out[o + 2] := c[2];
    out[o + 3] := c[3];
    assert out[o .. o + 4] == c;
    assert out[..o] == old(out[..o]) && out[o + 4..] == old(out[o + 4..]);
    assert out[..] == out[..o] + out[o .. o + 4] + out[o + 4..];
  }

  /** One turn of base64_enc's main loop: the three `bits |=` lines and the four stores. */
  method FullGroup(input: seq<byte>, i: nat, out: array<char>, o: nat,
                   ghost q: nat, ghost enc: string, ghost was: seq<char>)
    requires i == 3 * q && i + 3 <= |input| && o == 4 * q <= |enc| && enc == Encode(input) && |enc| < |was| == out.Length
    requires out[..] == enc[..o] + was[o..]
    modifies out
    ensures o + 4 <= |enc| && out[..] == enc[..o + 4] + was[o + 4..]
  {
    EncodeAt(input, q);
    ghost var x := out[..];
    var bits: bv32 := 0;
    bits := bits | ((input[i] as bv32) << 16);
    bits := bits | ((input[i + 1] as bv32) << 8);
    bits := bits | (input[i + 2] as bv32);
    ghost var g := input[i .. i + 3];
    assert Pad3(g) == g;
    CGroupEncodes(g, g);
    PutGroup(out, o, CGroup(bits, 3));
    Splice(was, x, out[..], o, 4, enc, EncodeGroup(g));
  }

  /**
   * The `switch (ilen)` of base64_enc's final partial group, whose cases
   * fall through: in[1] if present, then in[0]. The missing bytes count
   * as zero.
   */
  method TailBits(input: seq<byte>, i: nat) returns (bits: bv32)
    requires i < |input| < i + 3
    ensures var p := Pad3(input[i..]); bits == GroupBits(p[0], p[1], p[2])
  {
    var ilen := |input| - i;
    bits := 0;
    if ilen == 2 {
      bits := bits | ((input[i + 1] as bv32) << 8);
    }
    bits := bits | ((input[i] as bv32) << 16);
    ghost var p := Pad3(input[i..]);
    assert p[0] == input[i] && p[2] == 0;
    assert p[1] == if ilen > 1 then input[i + 1] else 0;
  }

  /** The final partial group of base64_enc: its bits, then the four stores with '=' for the missing symbols. */
  method FinalGroup(input: seq<byte>, i: nat, out: array<char>, o: nat,
                    ghost q: nat, ghost enc: string, ghost was: seq<char>)
    requires i == 3 * q && i < |input| < i + 3 && o == 4 * q <= |enc| && enc == Encode(input) && |enc| < |was| == out.Length
    requires out[..] == enc[..o] + was[o..]
    modifies out
    ensures o + 4 <= |enc| && out[..] == enc[..o + 4] + was[o + 4..]
  {
    EncodeAt(input, q);
    ghost var x := out[..];
    var bits := TailBits(input, i);
    CGroupEncodes(input[i..], Pad3(input[i..]));
    PutGroup(out, o, CGroup(bits, |input| - i));
    Splice(was, x, out[..], o, 4, enc, EncodeGroup(input[i..]));
  }

  /**
   * The loops of base64_enc that fill `out`: each whole group of three
   * bytes, then the final partial group. Returns how many characters
   * were written.
   */
  method EncodeGroups(input: seq<byte>, out: array<char>) returns (o: nat)
    requires |Encode(input)| < out.Length
    modifies out
    ensures o == |Encode(input)|
    ensures out[..] == Encode(input) + old(out[o..])
  {
    ghost var was := out[..];
    ghost var enc := Encode(input);
    var ilen := |input|;
    var i := 0;
    o := 0;
    ghost var q := 0;
    while ilen >= 3
      invariant i == 3 * q <= |input| && ilen == |input| - i && o == 4 * q <= |enc|
      invariant out[..] == enc[..o] + was[o..]
    {
      FullGroup(input, i, out, o, q, enc, was);
      ilen := ilen - 3;
      i := i + 3;
      q := q + 1;
      o := o + 4;
    }
    EncodeTail(input, q);
    if ilen > 0 {
      FinalGroup(input, i, out, o, q, enc, was);
      o := o + 4;
    }
    assert enc[..o] == enc;
  }

  /**
   * base64_enc: encode `input` into the buffer `out`, whose capacity the
   * caller gives as `olen`. Returns the status and the new `*olen`: on
   * success the characters written including the NUL, on failure the
   * capacity that would have been needed.
   */
  method Base64Enc(input: seq<byte>, out: array<char>, olen: nat) returns (ret: int, olenOut: nat)
    requires olen <= out.Length
    modifies out
    ensures olenOut == Base64EncLen(|input|) + 1
    ensures olen <= Base64EncLen(|input|) ==> ret == -1 && out[..] == old(out[..])
    ensures olen > Base64EncLen(|input|) ==>
      ret == 0 && out[..] == Encode(input) + ['\0'] + old(out[Base64EncLen(|input|) + 1 ..])
  {
    var enclen := Base64EncLen(|input|);
    if olen <= enclen {
      return -1, enclen + 1;
    }
    EncodeLength(input);
    var o := EncodeGroups(input, out);
    ghost var x := out[..];
    out[o] := '\0';
    Terminate(old(out[..]), x, out[..], o, Encode(input));
    return 0, o + 1;
  }

  // ---------------------------------------------------------------------
  // Decoding

  /**
   * The decoder's state between two characters: the accumulator `bits`
   * (C `int`, kept modulo 2^32), the count `shift` of pending bits, the
   * `padding` flag and every byte decoded so far (`len` is its length).
   */
  datatype DecState = DecState(bits: bv32, shift: int, padding: bool, out: seq<byte>)

  const Init := DecState(0, 0, false, [])

  predicate Good(d: DecState) { 0 <= d.shift < 8 }

  /** `(bits >> shift) & 0xff`: the eight bits above the `shift` lowest. */
  function Top8(bits: bv32, shift: nat): byte
    requires shift < 6
  {
    if shift == 0 then (bits & 0xff) as byte
    else if shift == 1 then ((bits >> 1) & 0xff) as byte
    else if shift == 2 then ((bits >> 2) & 0xff) as byte
    else if shift == 3 then ((bits >> 3) & 0xff) as byte
    else if shift == 4 then ((bits >> 4) & 0xff) as byte
    else ((bits >> 5) & 0xff) as byte
  }

  /** "output accumulated byte": once 8 bits are pending, emit the top eight of them. */
  function Emit(d: DecState): (r: DecState)
    requires 0 <= d.shift < 14
    ensures Good(r) && r.padding == d.padding
  {
    if d.shift >= 8 then
      DecState(d.bits, d.shift - 8, d.padding, d.out + [Top8(d.bits, d.shift - 8)])
    else d
  }

  /** One iteration of the decoding loop; None is the error exit. */
  function Step(d: DecState, c: char): (r: Option<DecState>)
    requires Good(d)
    ensures r.Some? ==> Good(r.value)
  {
    if IsSpace(c) || (d.padding && c == '=') then Some(d)
    else if !d.padding && B64Dec(c) >= 0 then
      Some(Emit(DecState((d.bits << 6) | ((B64Dec(c) as byte) as bv32), d.shift + 6, d.padding, d.out)))
    else if !d.padding && d.shift > 0 && d.shift != 6 && c == '=' then
      Some(DecState(d.bits, 0, true, d.out))
    else None
  }

  /** Runs the loop over `w`; the flag is false when it took the error exit. */
  function Run(d: DecState, w: string): (r: (DecState, bool))
    requires Good(d)
    ensures Good(r.0)
    decreases |w|
  {
    if w == [] then (d, true)
    else match Step(d, w[0])
      case None => (d, false)
      case Some(d') => Run(d', w[1..])
  }

  /** What base64_dec makes of the characters it visits. */
  function Decode(w: string): DecodeResult
  {
    var r := Run(Init, w);
    if r.1 then Decoded(r.0.out) else Invalid(r.0.out)
  }

  /** The run from a state over a non-empty rest is the step, then the run from there. */
  lemma RunUnfold(d: DecState, w: string, c: char)
    requires Good(d) && w != [] && w[0] == c
    ensures Run(d, w) == match Step(d, c) case None => (d, false) case Some(d') => Run(d', w[1..])
  {
  }

  /** The byte the loop stores is the byte Emit appends. */
  lemma EmitByte(pre: DecState, shift: int, x: byte)
    requires 8 <= pre.shift < 14 && shift == pre.shift - 8 && x == Top8(pre.bits, shift)
    ensures Emit(pre) == DecState(pre.bits, shift, pre.padding, pre.out + [x])
  {
  }

  lemma RunStep(d: DecState, w: string, d': DecState)
    requires Good(d) && Good(d') && w != [] && Step(d, w[0]) == Some(d')
    ensures Run(d, w) == Run(d', w[1..])
  {
  }

  /**
   * The first half of a turn of the decoding loop over character `c`: skip
   * whitespace (and '=' once padding started), shift in the value of an
   * alphabet character, start padding, or fail.
   */
  method ShiftIn(c: char, bits: bv32, shift: int, padding: bool, ghost decoded: seq<byte>)
    returns (ok: bool, bits': bv32, shift': int, padding': bool)
    requires 0 <= shift < 8
    ensures ok == Step(DecState(bits, shift, padding, decoded), c).Some?
    ensures ok ==> 0 <= shift' < 8 + 6
    ensures ok ==> Step(DecState(bits, shift, padding, decoded), c) == Some(Emit(DecState(bits', shift', padding', decoded)))
  {
    bits', shift', padding' := bits, shift, padding;
    if IsSpace(c) || (padding && c == '=') {
      ok := true;
    } else if !padding && B64Dec(c) >= 0 {
      shift' := shift + 6;
      bits' := (bits << 6) | ((B64Dec(c) as byte) as bv32);
      ok := true;
    } else if !padding && shift > 0 && shift != 6 && c == '=' {
      shift' := 0;
      padding' := true;
      ok := true;
    } else {
      ok := false;
    }
  }

  /**
   * base64_dec: decode at most `ilen` characters of `input` (stopping at a
   * NUL) into `out`, whose capacity the caller gives as `olen`. Returns the
   * status and the new `*olen`.
   */
  method Base64Dec(input: string, ilen: nat, out: array<byte>, olen: nat) returns (ret: int, olenOut: nat)
    requires olen <= out.Length
    modifies out
    ensures Holds(out[..], old(out[..]), Bytes(Decode(Window(input, ilen))), olen)
    ensures Decode(Window(input, ilen)).Invalid? ==> ret == -1 && olenOut == 0
    ensures Decode(Window(input, ilen)).Decoded? ==>
      olenOut == |Decode(Window(input, ilen)).data| && (ret == if olenOut > olen then -1 else 0)
  {
    ghost var w := Window(input, ilen);
    var bits: bv32 := 0;
    var shift := 0;
    var padding := false;
    var len := 0;
    var i := 0;
    var n := ilen;
    ghost var decoded: seq<byte> := [];
    while n > 0 && i < |input| && input[i] != '\0'
      invariant 0 <= i <= |w| && n == ilen - i
      invariant 0 <= shift < 8 && len == |decoded|
      invariant Run(Init, w) == Run(DecState(bits, shift, padding, decoded), w[i..])
      invariant Holds(out[..], old(out[..]), decoded, olen)
      decreases n
    {
      WindowAt(input, ilen, i);
      ghost var d := DecState(bits, shift, padding, decoded);
      assert w[i..][0] == input[i] && w[i..][1..] == w[i + 1..];
      var ok;
      ok, bits, shift, padding := ShiftIn(input[i], bits, shift, padding, decoded);
      if !ok {
        RunUnfold(d, w[i..], input[i]);
        return -1, 0;
      }
      ghost var pre := DecState(bits, shift, padding, decoded);
      if shift >= 8 {
        shift := shift - 8;
        var x := Top8(bits, shift);
        EmitByte(pre, shift, x);
        StoreByte(out, len, olen, x, old(out[..]), decoded);
        len := len + 1;
        decoded := decoded + [x];
      }
      assert DecState(bits, shift, padding, decoded) == Emit(pre);
      RunStep(d, w[i..], DecState(bits, shift, padding, decoded));
      n, i := n - 1, i + 1;
    }
    assert i == |w|;
    assert w[i..] == [];
    if len > olen {
      return -1, len;
    }
    return 0, len;
  }

  // ---------------------------------------------------------------------
  // Properties of the decoder

  /** Running over a concatenation is running over each part in turn. */
  lemma {:induction false} RunConcat(d: DecState, a: string, b: string)
    requires Good(d)
    ensures Run(d, a + b) == if Run(d, a).1 then Run(Run(d, a).0, b) else Run(d, a)
    decreases |a|
  {
    if a == [] {
      assert a + b == b;
    } else {
      assert (a + b)[0] == a[0];
      assert (a + b)[1..] == a[1..] + b;
      RunUnfold(d, a + b, a[0]);
      RunUnfold(d, a, a[0]);
      match Step(d, a[0])
      case None =>
      case Some(d') => RunConcat(d', a[1..], b);
    }
  }

  /** Each visited character adds at most six bits: eight bits per byte out. */
  lemma {:induction false} RunBits(d: DecState, w: string)
    requires Good(d)
    ensures 8 * |Run(d, w).0.out| + Run(d, w).0.shift <= 8 * |d.out| + d.shift + 6 * |w|
    decreases |w|
  {
    if w != [] {
      match Step(d, w[0])
      case None =>
      case Some(d') => RunBits(d', w[1..]);
    }
  }

  /** base64_declen(l) bytes always hold what l characters decode to. */
  lemma DecodeFitsDecLen(w: string)
    ensures |Bytes(Decode(w))| <= Base64DecLen(|w|)
  {
    RunBits(Init, w);
    var l := |w|;
    var q := (l + 3) / 4;
    assert l <= 4 * q;
    assert 8 * |Run(Init, w).0.out| <= 6 * l <= 24 * q;
  }

  /** Whitespace anywhere in the visited characters is skipped: removing it changes nothing. */
  lemma SpaceIsSkipped(a: string, c: char, b: string)
    requires IsSpace(c)
    ensures Decode(a + [c] + b) == Decode(a + b)
  {
    RunConcat(Init, a, [c] + b);
    RunConcat(Init, a, b);
    assert a + [c] + b == a + ([c] + b);
    if Run(Init, a).1 {
      assert ([c] + b)[0] == c && ([c] + b)[1..] == b;
    }
  }

  /** A character that is neither whitespace, nor '=', nor in the alphabet makes decoding fail. */
  lemma InvalidCharacterFails(a: string, c: char, b: string)
    requires !IsSpace(c) && c != '=' && B64Dec(c) < 0
    ensures Decode(a + [c] + b).Invalid?
  {
    RunConcat(Init, a, [c] + b);
    assert a + [c] + b == a + ([c] + b);
    assert ([c] + b)[0] == c;
  }

  /** After the first '=' only '=' and whitespace may follow: anything else fails. */
  lemma NoDataAfterPadding(a: string, c: char, b: string)
    requires Run(Init, a).1 && Run(Init, a).0.padding
    requires !IsSpace(c) && c != '='
    ensures Decode(a + [c] + b).Invalid?
  {
    RunConcat(Init, a, [c] + b);
    assert a + [c] + b == a + ([c] + b);
    assert ([c] + b)[0] == c;
  }

  /** '=' is accepted as the first padding character only with 2 or 4 bits pending. */
  lemma PaddingNeedsPendingBits(a: string, b: string)
    requires Run(Init, a).1 && !Run(Init, a).0.padding
    requires Run(Init, a).0.shift == 0 || Run(Init, a).0.shift == 6
    ensures Decode(a + ['='] + b).Invalid?
  {
    RunConcat(Init, a, ['='] + b);
    assert a + ['='] + b == a + (['='] + b);
    assert (['='] + b)[0] == '=';
  }

  // ---------------------------------------------------------------------
  // The round trip, symbol by symbol

  /** Shifting one 6-bit symbol into the accumulator (and emitting a byte if 8 bits are pending). */
  function Feed(d: DecState, v: bv8): (r: DecState)
    requires Good(d)
    ensures Good(r) && r.padding == d.padding
  {
    Emit(DecState((d.bits << 6) | (v as bv32), d.shift + 6, d.padding, d.out))
  }

  /** Feeding a sequence of symbols, first to last. */
  function FeedAll(d: DecState, vs: seq<bv8>): (r: DecState)
    requires Good(d)
    ensures Good(r) && r.padding == d.padding
    decreases |vs|
  {
    if vs == [] then d else Feed(FeedAll(d, vs[..|vs| - 1]), vs[|vs| - 1])
  }

  /** Reading the character of a symbol feeds the symbol. */
  lemma StepSymbol(d: DecState, v: bv8)
    requires Good(d) && !d.padding && v < 64
    ensures Step(d, B64Char(v as int)) == Some(Feed(d, v))
  {
    SymbolBits(v);
  }

  /** The character of a symbol is an alphabet character whose table value, as bits, is the symbol. */
  lemma SymbolBits(v: bv8)
    requires v < 64
    ensures !IsSpace(B64Char(v as int)) && B64Dec(B64Char(v as int)) >= 0
    ensures (B64Dec(B64Char(v as int)) as byte) as bv32 == v as bv32
  {
    B64DecInvertsB64Char(v as int);
    SymbolAsBits(v);
  }

  /** Reading the characters of some symbols feeds those symbols. */
  lemma {:induction false} RunChars(d: DecState, vs: seq<bv8>, rest: string)
    requires Good(d) && !d.padding
    requires forall j | 0 <= j < |vs| :: vs[j] < 64
    ensures Run(d, Chars(vs) + rest) == Run(FeedAll(d, vs), rest)
    decreases |vs|
  {
    if vs != [] {
      var m := |vs| - 1;
      var c := B64Char(vs[m] as int);
      assert Chars(vs) + rest == Chars(vs[..m]) + ([c] + rest);
      RunChars(d, vs[..m], [c] + rest);
      StepSymbol(FeedAll(d, vs[..m]), vs[m]);
      RunUnfold(FeedAll(d, vs[..m]), [c] + rest, c);
      assert ([c] + rest)[1..] == rest;
    } else {
      assert Chars(vs) + rest == rest;
    }
  }

  lemma FeedAllSnoc(d: DecState, vs: seq<bv8>, k: nat)
    requires Good(d) && k < |vs|
    ensures FeedAll(d, vs[..k + 1]) == Feed(FeedAll(d, vs[..k]), vs[k])
  {
    assert vs[..k + 1][..k] == vs[..k];
  }

  lemma FeedAllPrefixes(d: DecState, v: seq<bv8>)
    requires Good(d)
    ensures FeedAll(d, v[..0]) == d
    ensures forall k | 0 <= k < |v| :: FeedAll(d, v[..k + 1]) == Feed(FeedAll(d, v[..k]), v[k])
  {
    assert v[..0] == [];
    forall k | 0 <= k < |v|
      ensures FeedAll(d, v[..k + 1]) == Feed(FeedAll(d, v[..k]), v[k])
    {
      FeedAllSnoc(d, v, k);
    }
  }

  lemma Byte0(x: bv32, b0: byte, b1: byte)
    ensures ((((((x << 6) | (T0(b0) as bv32)) << 6) | (T1(b0, b1) as bv32)) >> 4) & 0xff) as byte == b0
  {
  }

  lemma Byte1(z: bv32, b0: byte, b1: byte, b2: byte)
    ensures ((((((z << 6) | (T1(b0, b1) as bv32)) << 6) | (T2(b1, b2) as bv32)) >> 2) & 0xff) as byte == b1
  {
  }

  lemma Byte2(z: bv32, b1: byte, b2: byte)
    ensures (((((z << 6) | (T2(b1, b2) as bv32)) << 6) | (T3(b2) as bv32)) & 0xff) as byte == b2
  {
  }

  // Each lemma below feeds the symbols that complete one byte. The states
  // are parameters, so that callers reason about states and not about bits.

  lemma Feed01(d: DecState, s1: DecState, s2: DecState, b0: byte, b1: byte)
    requires Good(d) && d.shift == 0 && s1 == Feed(d, T0(b0)) && s2 == Feed(s1, T1(b0, b1))
    ensures s1.shift == 6 && s2.shift == 4 && s2.out == d.out + [b0]
  {
    Byte0(d.bits, b0, b1);
  }

  lemma Feed2(s1: DecState, s2: DecState, s3: DecState, b0: byte, b1: byte, b2: byte)
    requires Good(s1) && s1.shift == 6 && s2 == Feed(s1, T1(b0, b1)) && s3 == Feed(s2, T2(b1, b2))
    ensures s3.shift == 2 && s3.out == s2.out + [b1]
  {
    Byte1(s1.bits, b0, b1, b2);
  }

  lemma Feed3(s2: DecState, s3: DecState, s4: DecState, b1: byte, b2: byte)
    requires Good(s2) && s2.shift == 4 && s3 == Feed(s2, T2(b1, b2)) && s4 == Feed(s3, T3(b2))
    ensures s4.shift == 0 && s4.out == s3.out + [b2]
  {
    Byte2(s2.bits, b1, b2);
  }

  /** The symbols of three bytes, fed from a group boundary through states s1 … s4, emit the three bytes in order. */
  lemma FeedBytes(d: DecState, s1: DecState, s2: DecState, s3: DecState, s4: DecState,
                  b0: byte, b1: byte, b2: byte)
    requires Good(d) && d.shift == 0
    requires Good(s1) && s1 == Feed(d, T0(b0))
    requires Good(s2) && s2 == Feed(s1, T1(b0, b1))
    requires Good(s3) && s3 == Feed(s2, T2(b1, b2))
    requires s4 == Feed(s3, T3(b2))
    ensures s2.out == d.out + [b0] && s2.shift == 4
    ensures s3.out == s2.out + [b1] && s3.shift == 2
    ensures s4.out == s3.out + [b2] && s4.shift == 0
  {
    Feed01(d, s1, s2, b0, b1);
    Feed2(s1, s2, s3, b0, b1, b2);
    Feed3(s2, s3, s4, b1, b2);
  }

  /**
   * From a group boundary, the symbols of a group emit its bytes: after
   * 2, 3 and 4 symbols, the first 1, 2 and 3 bytes are out.
   */
  lemma FeedGroup(d: DecState, g: seq<byte>)
    requires Good(d) && d.shift == 0 && |g| == 3
    ensures FeedAll(d, GroupSymbols(g)[..2]).out == d.out + g[..1]
    ensures FeedAll(d, GroupSymbols(g)[..2]).shift == 4
    ensures FeedAll(d, GroupSymbols(g)[..3]).out == d.out + g[..2]
    ensures FeedAll(d, GroupSymbols(g)[..3]).shift == 2
    ensures FeedAll(d, GroupSymbols(g)[..4]).out == d.out + g
    ensures FeedAll(d, GroupSymbols(g)[..4]).shift == 0
  {
    var v := GroupSymbols(g);
    FeedAllPrefixes(d, v);
    FeedBytes(d, FeedAll(d, v[..1]), FeedAll(d, v[..2]), FeedAll(d, v[..3]), FeedAll(d, v[..4]),
      g[0], g[1], g[2]);
    AppendNext(d.out, g, 0);
    AppendNext(d.out, g, 1);
    AppendNext(d.out, g, 2);
    assert g[..3] == g;
  }

  /** '=' characters after the first padding character are consumed. */
  lemma {:induction false} PaddingRun(p: DecState, k: nat)
    requires Good(p) && p.padding
    ensures Run(p, Pads(k)) == (p, true)
    decreases k
  {
    if k > 0 {
      assert Pads(k)[1..] == Pads(k - 1);
      PaddingRun(p, k - 1);
    }
  }

  /** After the symbols of a group, its bytes are out; a partial group leaves 2 or 4 bits pending. */
  lemma GroupSymbolsFed(d: DecState, g: seq<byte>, e: DecState)
    requires Good(d) && d.shift == 0 && !d.padding && 1 <= |g| <= 3
    requires e == FeedAll(d, GroupSymbols(Pad3(g))[..SymbolCount(|g|)])
    ensures e.out == d.out + g && !e.padding
    ensures |g| == 3 ==> e.shift == 0
    ensures |g| < 3 ==> e.shift == 2 || e.shift == 4
  {
    FeedGroup(d, Pad3(g));
    if |g| == 3 {
      assert Pad3(g) == g;
    }
  }

  /** The first '=' of a group's padding, and the rest of it, while 2 or 4 bits are pending. */
  lemma PaddingStarts(e: DecState, p: nat) returns (r: DecState)
    requires Good(e) && !e.padding && (e.shift == 2 || e.shift == 4) && p > 0
    ensures Run(e, Pads(p)) == (r, true) && r.out == e.out
  {
    r := DecState(e.bits, 0, true, e.out);
    assert Step(e, '=') == Some(r);
    assert Pads(p)[0] == '=' && Pads(p)[1..] == Pads(p - 1);
    PaddingRun(r, p - 1);
  }

  /**
   * Decoding the symbols of a group of n bytes and the first `p` of its
   * '=' padding characters appends exactly those n bytes; a full group
   * ends on a group boundary.
   */
  lemma DecodeGroup(d: DecState, g: seq<byte>, p: nat) returns (r: DecState)
    requires Good(d) && d.shift == 0 && !d.padding && 1 <= |g| <= 3
    requires p <= 4 - SymbolCount(|g|)
    ensures Run(d, Symbols(g) + Pads(p)) == (r, true)
    ensures r.out == d.out + g && (|g| == 3 ==> r.shift == 0 && !r.padding)
  {
    var v := GroupSymbols(Pad3(g));
    var k := SymbolCount(|g|);
    RunChars(d, v[..k], Pads(p));
    var e := FeedAll(d, v[..k]);
    GroupSymbolsFed(d, g, e);
    if p > 0 {
      r := PaddingStarts(e, p);
    } else {
      assert Pads(0) == [];
      r := e;
    }
  }

  /** A full group of four symbols from a group boundary: its three bytes, and the next boundary. */
  lemma FullGroupRun(d: DecState, g: seq<byte>) returns (d': DecState)
    requires Good(d) && d.shift == 0 && !d.padding && |g| == 3
    ensures Run(d, EncodeGroup(g)) == (d', true)
    ensures Good(d') && d'.out == d.out + g && d'.shift == 0 && !d'.padding
  {
    assert Symbols(g) + Pads(0) == EncodeGroup(g);
    d' := DecodeGroup(d, g, 0);
  }

  /** A final partial group with all its padding: its bytes, and the run succeeds. */
  lemma FinalGroupRun(d: DecState, g: seq<byte>)
    requires Good(d) && d.shift == 0 && !d.padding && 1 <= |g| < 3
    ensures Run(d, Encode(g)).1 && Run(d, Encode(g)).0.out == d.out + g
  {
    var r := DecodeGroup(d, g, 4 - SymbolCount(|g|));
  }

  /** The bytes after the first group: they complete the output, and whole groups remain whole. */
  lemma GroupRemainder(s: seq<byte>)
    requires |s| >= 3
    ensures s[..3] + s[3..] == s && |s[3..]| % 3 == |s| % 3
  {
  }

  /** Running over an encoding of at least one full group: the group, then the rest. */
  lemma RunEncodeCons(d: DecState, s: seq<byte>, d': DecState)
    requires Good(d) && |s| >= 3 && Run(d, EncodeGroup(s[..3])) == (d', true)
    ensures Run(d, Encode(s)) == Run(d', Encode(s[3..]))
  {
    RunConcat(d, EncodeGroup(s[..3]), Encode(s[3..]));
  }

  /** Decoding an encoding from a group boundary appends the encoded bytes. */
  lemma {:induction false} RunEncode(d: DecState, s: seq<byte>)
    requires Good(d) && d.shift == 0 && !d.padding
    ensures Run(d, Encode(s)).1 && Run(d, Encode(s)).0.out == d.out + s
    ensures |s| % 3 == 0 ==> Run(d, Encode(s)).0.shift == 0 && !Run(d, Encode(s)).0.padding
    decreases |s|
  {
    if |s| >= 3 {
      var d' := FullGroupRun(d, s[..3]);
      RunEncode(d', s[3..]);
      RunEncodeCons(d, s, d');
      GroupRemainder(s);
    } else if |s| > 0 {
      assert |s| % 3 != 0;
      FinalGroupRun(d, s);
    } else {
      assert Encode(s) == [];
    }
  }

  /** Round trip: base64_dec of base64_enc's output returns the original bytes. */
  lemma DecodeEncode(s: seq<byte>)
    ensures Decode(Encode(s)) == Decoded(s)
    ensures Decode(Window(Encode(s), |Encode(s)|)) == Decoded(s)
  {
    EncodeCharacters(s);
    WindowOfNulFree(Encode(s));
    RunEncode(Init, s);
    assert Init.out + s == s;
  }

  /** How many '=' the encoding of l bytes ends with. */
  function PadCount(l: nat): nat
  {
    if l % 3 == 0 then 0 else 4 - SymbolCount(l % 3)
  }

  /**
   * Sloppy padding: an encoding with any number of its trailing '='
   * characters dropped still decodes to the original bytes.
   */
  lemma DecodeSloppyPadding(s: seq<byte>, drop: nat)
    requires drop <= PadCount(|s|)
    ensures drop <= |Encode(s)|
    ensures Decode(Encode(s)[..|Encode(s)| - drop]) == Decoded(s)
  {
    if drop == 0 {
      DecodeEncode(s);
      assert Encode(s)[..|Encode(s)|] == Encode(s);
    } else {
      Remainder(|s|);
      DropFromPartial(s, |s| - |s| % 3, drop);
    }
  }

  /** Cutting l bytes into whole groups and a remainder. */
  lemma Remainder(l: nat)
    ensures 0 <= l % 3 < 3 && l % 3 <= l && (l - l % 3) % 3 == 0
  {
  }

  /** Dropping some of the '=' that complete a final partial group. */
  lemma DropFromPartial(s: seq<byte>, q: nat, drop: nat)
    requires q % 3 == 0 && q < |s| < q + 3 && drop <= 4 - SymbolCount(|s| - q)
    ensures drop <= |Encode(s)|
    ensures Decode(Encode(s)[..|Encode(s)| - drop]) == Decoded(s)
  {
    var a, g := s[..q], s[q..];
    assert a + g == s;
    DroppedShape(s, a, g, drop);
    DecodeGroupsThenPartial(a, g, SymbolCount(|g|), 4 - SymbolCount(|g|) - drop, Encode(s)[..|Encode(s)| - drop], s);
  }

  /** An encoding ending in a partial group, with `drop` of its '=' dropped: whole groups, symbols, the other '='. */
  lemma DroppedShape(s: seq<byte>, a: seq<byte>, g: seq<byte>, drop: nat)
    requires |a| % 3 == 0 && 1 <= |g| < 3 && s == a + g && drop <= 4 - SymbolCount(|g|)
    ensures drop <= |Encode(s)|
    ensures Encode(s)[..|Encode(s)| - drop] == Encode(a) + (Symbols(g) + Pads(4 - SymbolCount(|g|) - drop))
  {
    LastGroup(s, a, g);
    DropPads(Encode(s), Encode(a), Symbols(g), 4 - SymbolCount(|g|), drop);
  }

  /** Whole groups, then the symbols of a partial group and some of its '=', decode to all the bytes. */
  lemma DecodeGroupsThenPartial(a: seq<byte>, g: seq<byte>, k: nat, p: nat, w: string, b: seq<byte>)
    requires |a| % 3 == 0 && 1 <= |g| < 3 && k == SymbolCount(|g|) && p <= 4 - k
    requires w == Encode(a) + (Symbols(g) + Pads(p)) && b == a + g
    ensures Decode(w) == Decoded(b)
  {
    var tail := Symbols(g) + Pads(p);
    RunEncode(Init, a);
    var d1 := Run(Init, Encode(a)).0;
    assert d1.out == a by {
      assert Init.out + a == a;
    }
    var r := DecodeGroup(d1, g, p);
    RunConcat(Init, Encode(a), tail);
  }

  /** The encoding of bytes that end in a partial group: the full groups, the symbols, the '='. */
  lemma LastGroup(s: seq<byte>, a: seq<byte>, g: seq<byte>)
    requires |a| % 3 == 0 && 1 <= |g| < 3 && s == a + g
    ensures Encode(s) == Encode(a) + (Symbols(g) + Pads(4 - SymbolCount(|g|)))
  {
    EncodeConcat(a, g);
    assert Encode(g) == EncodeGroup(g);
  }

  // ---------------------------------------------------------------------
  // RFC 4648 section 10 test vectors

  lemma EncodeVector1()
    ensures Encode([]) == ""
    ensures Encode([0x66]) == "Zg=="
  {
  }

  lemma EncodeVector2()
    ensures Encode([0x66, 0x6f]) == "Zm8="
  {
  }

  lemma EncodeVector3()
    ensures Encode([0x66, 0x6f, 0x6f]) == "Zm9v"
  {
  }

  lemma EncodeVector4()
    ensures Encode([0x66, 0x6f, 0x6f, 0x62]) == "Zm9vYg=="
  {
    var s: seq<byte> := [0x66, 0x6f, 0x6f, 0x62];
    EncodeVector3();
    assert s[..3] == [0x66, 0x6f, 0x6f] && s[3..] == [0x62];
    assert Encode([0x62]) == "Yg==";
  }

  lemma EncodeVector5()
    ensures Encode([0x66, 0x6f, 0x6f, 0x62, 0x61]) == "Zm9vYmE="
  {
    var s: seq<byte> := [0x66, 0x6f, 0x6f, 0x62, 0x61];
    EncodeVector3();
    assert s[..3] == [0x66, 0x6f, 0x6f] && s[3..] == [0x62, 0x61];
    assert Encode([0x62, 0x61]) == "YmE=";
  }

  lemma EncodeVector6()
    ensures Encode([0x66, 0x6f, 0x6f, 0x62, 0x61, 0x72]) == "Zm9vYmFy"
  {
    var s: seq<byte> := [0x66, 0x6f, 0x6f, 0x62, 0x61, 0x72];
    EncodeVector3();
    assert s[..3] == [0x66, 0x6f, 0x6f] && s[3..] == [0x62, 0x61, 0x72];
    assert Encode([0x62, 0x61, 0x72]) == "YmFy";
  }

  lemma DecodeVector6()
    ensures Decode("Zm9vYmFy") == Decoded([0x66, 0x6f, 0x6f, 0x62, 0x61, 0x72])
  {
    EncodeVector6();
    DecodeEncode([0x66, 0x6f, 0x6f, 0x62, 0x61, 0x72]);
  }

  /** "Zg" and "Zg=" are "Zg==" with padding dropped. */
  lemma DecodeVectorsSloppy()
    ensures Decode("Zg") == Decoded([0x66])
    ensures Decode("Zg=") == Decoded([0x66])
  {
    EncodeVector1();
    DecodeSloppyPadding([0x66], 2);
    assert "Zg=="[..2] == "Zg";
    DecodeSloppyPadding([0x66], 1);
    assert "Zg=="[..3] == "Zg=";
  }

  lemma RejectVectors()
    ensures Decode("Z!").Invalid?
    ensures Decode("=Zg").Invalid?
  {
    InvalidCharacterFails("Z", '!', "");
    assert "Z" + ['!'] + "" == "Z!";
    PaddingNeedsPendingBits("", "Zg");
    assert "" + ['='] + "Zg" == "=Zg";
  }
}
