// RFC 4648 section 6 base 32: base32_enc and base32_dec of oath_base32.c.

module Base32 {
  import opened CTypes
  import opened Rfc4648
  import opened Buffers

  /**
   * b32dec[c], a table of signed chars: the value of an alphabet character,
   * -1 for the 0xff rows. Only 'A'-'Z' and '2'-'7' have a value; the
   * lower-case rows are 0xff like every other row.
   */
  function B32Dec(c: char): (r: int)
    ensures -1 <= r < 32
  {
    if 'A' <= c <= 'Z' then c as int - 'A' as int
    else if '2' <= c <= '7' then c as int - '2' as int + 26
    else -1
  }

  /** The alphabet character for the 5-bit value v: 'A'-'Z', then '2'-'7'. */
  function B32Char(v: int): char
    requires 0 <= v < 32
  {
    if v < 26 then ('A' as int + v) as char else ('2' as int + v - 26) as char
  }

  /** b32enc: the base 32 alphabet, indexed by a 5-bit value. */
  const B32Enc: string := "ABCDEFGHIJKLMNOPQRSTUVWXYZ234567"

  /** The table b32enc is the alphabet B32Char spells out. */
  lemma B32EncTable(v: int)
    requires 0 <= v < 32
    ensures B32Enc[v] == B32Char(v)
  {
  }

  /** Every alphabet character decodes to its own value, and none is whitespace, '=' or NUL. */
  lemma B32DecInvertsB32Char(v: int)
    requires 0 <= v < 32
    ensures B32Dec(B32Char(v)) == v
    ensures !IsSpace(B32Char(v)) && B32Char(v) != '=' && B32Char(v) != '\0'
  {
  }

  /** Only alphabet characters have a value, and each is the character of that value. */
  lemma B32CharInvertsB32Dec(c: char)
    requires B32Dec(c) >= 0
    ensures B32Dec(c) < 32 && B32Char(B32Dec(c)) == c
  {
  }

  lemma SymbolAsBits(v: bv8)
    requires v < 32
    ensures ((v as int) as byte) as bv32 == v as bv32
  {
  }

  // ---------------------------------------------------------------------
  // Encoding, as RFC 4648 defines it: eight 5-bit symbols per five bytes

  function S0(b0: byte): bv8 { b0 >> 3 }
  function S1(b0: byte, b1: byte): bv8 { ((b0 & 7) << 2) | (b1 >> 6) }
  function S2(b1: byte): bv8 { (b1 >> 1) & 31 }
  function S3(b1: byte, b2: byte): bv8 { ((b1 & 1) << 4) | (b2 >> 4) }
  function S4(b2: byte, b3: byte): bv8 { ((b2 & 15) << 1) | (b3 >> 7) }
  function S5(b3: byte): bv8 { (b3 >> 2) & 31 }
  function S6(b3: byte, b4: byte): bv8 { ((b3 & 3) << 3) | (b4 >> 5) }
  function S7(b4: byte): bv8 { b4 & 31 }

  /** The eight 5-bit symbol values of a five-byte group, most significant first. */
  function GroupSymbols(g: seq<byte>): (v: seq<bv8>)
    requires |g| == 5
    ensures |v| == 8 && forall j | 0 <= j < 8 :: v[j] < 32
  {
    [S0(g[0]), S1(g[0], g[1]), S2(g[1]), S3(g[1], g[2]),
     S4(g[2], g[3]), S5(g[3]), S6(g[3], g[4]), S7(g[4])]
  }

  /** A final group completed with zero bytes. */
  function Pad5(g: seq<byte>): (r: seq<byte>)
    requires |g| <= 5
    ensures |r| == 5 && r[..|g|] == g
  {
    g + seq(5 - |g|, _ => 0)
  }

  /** How many of the eight characters of a group of n bytes are symbols rather than '='. */
  function SymbolCount(n: nat): nat
  {
    if n == 1 then 2 else if n == 2 then 4 else if n == 3 then 5 else if n == 4 then 7 else 8
  }

  /** The characters of a sequence of symbol values. */
  function Chars(vs: seq<bv8>): (r: string)
    requires forall j | 0 <= j < |vs| :: vs[j] < 32
    ensures |r| == |vs|
  {
    seq(|vs|, j requires 0 <= j < |vs| => B32Char(vs[j] as int))
  }

  /** The symbol characters of a group of 1 to 5 bytes, completed with zero bits. */
  function Symbols(g: seq<byte>): (r: string)
    requires 1 <= |g| <= 5
    ensures |r| == SymbolCount(|g|)
  {
    Chars(GroupSymbols(Pad5(g))[..SymbolCount(|g|)])
  }

  /**
   * The eight characters of one group of up to five bytes: a full group
   * is eight symbols; a final group of 1, 2, 3 or 4 bytes, completed with
   * zero bits, gives 2, 4, 5 or 7 symbols and '=' up to eight.
   */
  function EncodeGroup(g: seq<byte>): (r: string)
    requires 1 <= |g| <= 5
    ensures |r| == 8
  {
    Symbols(g) + Pads(8 - SymbolCount(|g|))
  }

  /** The base 32 encoding of `s` (without the terminating NUL). */
  function Encode(s: seq<byte>): string
    decreases |s|
  {
    if |s| == 0 then []
    else if |s| >= 5 then EncodeGroup(s[..5]) + Encode(s[5..])
    else EncodeGroup(s)
  }

  /** The encoding is base32_enclen(|s|) characters long. */
  lemma {:induction false} EncodeLength(s: seq<byte>)
    ensures |Encode(s)| == Base32EncLen(|s|)
    decreases |s|
  {
    if |s| >= 5 {
      EncodeLength(s[5..]);
    }
  }

  /** Every character of an encoding is an alphabet symbol or '='; none is a NUL. */
  lemma {:induction false} EncodeCharacters(s: seq<byte>)
    ensures forall j | 0 <= j < |Encode(s)| :: B32Dec(Encode(s)[j]) >= 0 || Encode(s)[j] == '='
    ensures '\0' !in Encode(s)
    decreases |s|
  {
    if |s| > 0 {
      var g := if |s| >= 5 then s[..5] else s;
      var v := GroupSymbols(Pad5(g));
      forall j | 0 <= j < 8
        ensures B32Dec(B32Char(v[j] as int)) >= 0 && B32Char(v[j] as int) != '\0'
      {
        B32DecInvertsB32Char(v[j] as int);
      }
      if |s| >= 5 {
        EncodeCharacters(s[5..]);
      }
    }
  }

  /** Encoding whole groups, then the rest, is encoding the concatenation. */
  lemma {:induction false} EncodeConcat(a: seq<byte>, b: seq<byte>)
    requires |a| % 5 == 0
    ensures Encode(a + b) == Encode(a) + Encode(b)
    decreases |a|
  {
    if |a| > 0 {
      assert (a + b)[..5] == a[..5];
      assert (a + b)[5..] == a[5..] + b;
      EncodeConcat(a[5..], b);
    } else {
      assert a + b == b;
    }
  }

  /** After q whole groups, the encoding goes on with the encoding of the rest. */
  lemma EncodeSuffix(s: seq<byte>, q: nat)
    requires 5 * q <= |s|
    ensures 8 * q <= |Encode(s)| && Encode(s)[8 * q..] == Encode(s[5 * q..])
  {
    var a := s[..5 * q];
    var b := s[5 * q..];
    assert a + b == s;
    WholeGroups(q);
    EncodeConcat(a, b);
    EncodeLength(a);
    Base32EncLenAt(5 * q, q);
  }

  lemma WholeGroups(q: nat)
    ensures (5 * q) % 5 == 0
  {
  }

  /** After the last whole group, at most one (partial) group of characters follows. */
  lemma EncodeTail(s: seq<byte>, q: nat)
    requires 5 * q <= |s| < 5 * q + 5
    ensures |s| == 5 * q ==> |Encode(s)| == 8 * q
    ensures |s| > 5 * q ==> |Encode(s)| == 8 * q + 8
  {
    EncodeSuffix(s, q);
    assert |Encode(s)| == 8 * q + |Encode(s[5 * q..])|;
  }

  /** The characters 8q … 8q+7 of an encoding are the encoding of bytes 5q … 5q+4 (or up to the end). */
  lemma EncodeAt(s: seq<byte>, q: nat)
    requires 5 * q < |s|
    ensures |Encode(s)| >= 8 * q + 8
    ensures 5 * q + 5 <= |s| ==> Encode(s)[8 * q .. 8 * q + 8] == EncodeGroup(s[5 * q .. 5 * q + 5])
    ensures 5 * q + 5 > |s| ==> Encode(s)[8 * q .. 8 * q + 8] == EncodeGroup(s[5 * q ..])
  {
    EncodeSuffix(s, q);
    var t := s[5 * q..];
    assert Encode(s)[8 * q .. 8 * q + 8] == Encode(t)[..8];
    if |t| >= 5 {
      assert t[..5] == s[5 * q .. 5 * q + 5];
    }
  }

  // ---------------------------------------------------------------------
  // The encoder as the C code computes it: a 40-bit group in a uint64_t

  /** `bits` after the five `bits |= (uint64_t)in[k] << (32 - 8k)` lines. */
  function GroupBits(b0: byte, b1: byte, b2: byte, b3: byte, b4: byte): bv64
  {
    ((b0 as bv64) << 32) | ((b1 as bv64) << 24) | ((b2 as bv64) << 16) | ((b3 as bv64) << 8) | (b4 as bv64)
  }

  /** `b32enc[x & 0x1f]`: the table entry for the low five bits of `x` (B32EncTable). */
  function Sym(x: bv64): char
  {
    B32Char((x & 0x1f) as int)
  }

  lemma SymTable(x: bv64, v: bv8)
    requires v < 32 && x & 0x1f == v as bv64
    ensures Sym(x) == B32Char(v as int)
  {
    assert (x & 0x1f) as int == v as int;
  }

  // Bits0 … Bits7: `bits >> 35 & 0x1f`, …, `bits & 0x1f` are the RFC 4648
  // symbol values of the group; Sym0 … Sym7: so the table entries are its symbols.

  lemma Bits0(b0: byte, b1: byte, b2: byte, b3: byte, b4: byte)
    ensures (GroupBits(b0, b1, b2, b3, b4) >> 35) & 0x1f == S0(b0) as bv64
  {
  }

  lemma Sym0(b0: byte, b1: byte, b2: byte, b3: byte, b4: byte)
    ensures Sym(GroupBits(b0, b1, b2, b3, b4) >> 35) == B32Char(S0(b0) as int)
  {
    Bits0(b0, b1, b2, b3, b4);
    SymTable(GroupBits(b0, b1, b2, b3, b4) >> 35, S0(b0));
  }

  lemma Bits1(b0: byte, b1: byte, b2: byte, b3: byte, b4: byte)
    ensures (GroupBits(b0, b1, b2, b3, b4) >> 30) & 0x1f == S1(b0, b1) as bv64
  {
  }

  lemma Sym1(b0: byte, b1: byte, b2: byte, b3: byte, b4: byte)
    ensures Sym(GroupBits(b0, b1, b2, b3, b4) >> 30) == B32Char(S1(b0, b1) as int)
  {
    Bits1(b0, b1, b2, b3, b4);
    SymTable(GroupBits(b0, b1, b2, b3, b4) >> 30, S1(b0, b1));
  }

  lemma Bits2(b0: byte, b1: byte, b2: byte, b3: byte, b4: byte)
    ensures (GroupBits(b0, b1, b2, b3, b4) >> 25) & 0x1f == S2(b1) as bv64
  {
  }

  lemma Sym2(b0: byte, b1: byte, b2: byte, b3: byte, b4: byte)
    ensures Sym(GroupBits(b0, b1, b2, b3, b4) >> 25) == B32Char(S2(b1) as int)
  {
    Bits2(b0, b1, b2, b3, b4);
    SymTable(GroupBits(b0, b1, b2, b3, b4) >> 25, S2(b1));
  }

  lemma Bits3(b0: byte, b1: byte, b2: byte, b3: byte, b4: byte)
    ensures (GroupBits(b0, b1, b2, b3, b4) >> 20) & 0x1f == S3(b1, b2) as bv64
  {
  }

  lemma Sym3(b0: byte, b1: byte, b2: byte, b3: byte, b4: byte)
    ensures Sym(GroupBits(b0, b1, b2, b3, b4) >> 20) == B32Char(S3(b1, b2) as int)
  {
    Bits3(b0, b1, b2, b3, b4);
    SymTable(GroupBits(b0, b1, b2, b3, b4) >> 20, S3(b1, b2));
  }

  lemma Bits4(b0: byte, b1: byte, b2: byte, b3: byte, b4: byte)
    ensures (GroupBits(b0, b1, b2, b3, b4) >> 15) & 0x1f == S4(b2, b3) as bv64
  {
  }

  lemma Sym4(b0: byte, b1: byte, b2: byte, b3: byte, b4: byte)
    ensures Sym(GroupBits(b0, b1, b2, b3, b4) >> 15) == B32Char(S4(b2, b3) as int)
  {
    Bits4(b0, b1, b2, b3, b4);
    SymTable(GroupBits(b0, b1, b2, b3, b4) >> 15, S4(b2, b3));
  }

  lemma Bits5(b0: byte, b1: byte, b2: byte, b3: byte, b4: byte)
    ensures (GroupBits(b0, b1, b2, b3, b4) >> 10) & 0x1f == S5(b3) as bv64
  {
  }

  lemma Sym5(b0: byte, b1: byte, b2: byte, b3: byte, b4: byte)
    ensures Sym(GroupBits(b0, b1, b2, b3, b4) >> 10) == B32Char(S5(b3) as int)
  {
    Bits5(b0, b1, b2, b3, b4);
    SymTable(GroupBits(b0, b1, b2, b3, b4) >> 10, S5(b3));
  }

  lemma Bits6(b0: byte, b1: byte, b2: byte, b3: byte, b4: byte)
    ensures (GroupBits(b0, b1, b2, b3, b4) >> 5) & 0x1f == S6(b3, b4) as bv64
  {
  }

  lemma Sym6(b0: byte, b1: byte, b2: byte, b3: byte, b4: byte)
    ensures Sym(GroupBits(b0, b1, b2, b3, b4) >> 5) == B32Char(S6(b3, b4) as int)
  {
    Bits6(b0, b1, b2, b3, b4);
    SymTable(GroupBits(b0, b1, b2, b3, b4) >> 5, S6(b3, b4));
  }

  lemma Bits7(b0: byte, b1: byte, b2: byte, b3: byte, b4: byte)
    ensures GroupBits(b0, b1, b2, b3, b4) & 0x1f == S7(b4) as bv64
  {
  }

  lemma Sym7(b0: byte, b1: byte, b2: byte, b3: byte, b4: byte)
    ensures Sym(GroupBits(b0, b1, b2, b3, b4)) == B32Char(S7(b4) as int)
  {
    Bits7(b0, b1, b2, b3, b4);
    SymTable(GroupBits(b0, b1, b2, b3, b4), S7(b4));
  }

  /** The eight characters base32_enc writes for a group of n bytes whose bits are `bits`. */
  function CGroup(bits: bv64, n: nat): (r: string)
    ensures |r| == 8
  {
    [Sym(bits >> 35),
     Sym(bits >> 30),
     if n > 1 then Sym(bits >> 25) else '=',
     if n > 1 then Sym(bits >> 20) else '=',
     if n > 2 then Sym(bits >> 15) else '=',
     if n > 3 then Sym(bits >> 10) else '=',
     if n > 3 then Sym(bits >> 5) else '=',
     if n > 4 then Sym(bits) else '=']
  }

  /** The eight characters of a group: its symbols, then '=' where the group has no bits. */
  lemma EncodeGroupChars(g: seq<byte>, v: seq<bv8>)
    requires 1 <= |g| <= 5 && v == GroupSymbols(Pad5(g))
    ensures var n := |g|;
      EncodeGroup(g) ==
      [B32Char(v[0] as int),
       B32Char(v[1] as int),
       if n > 1 then B32Char(v[2] as int) else '=',
       if n > 1 then B32Char(v[3] as int) else '=',
       if n > 2 then B32Char(v[4] as int) else '=',
       if n > 3 then B32Char(v[5] as int) else '=',
       if n > 3 then B32Char(v[6] as int) else '=',
       if n > 4 then B32Char(v[7] as int) else '=']
  {
  }

  /** What base32_enc writes for a group of n bytes b0 … b4 (zero past n): its symbols, then '='. */
  lemma CGroupSymbols(b0: byte, b1: byte, b2: byte, b3: byte, b4: byte, n: nat)
    ensures CGroup(GroupBits(b0, b1, b2, b3, b4), n) ==
      [B32Char(S0(b0) as int),
       B32Char(S1(b0, b1) as int),
       if n > 1 then B32Char(S2(b1) as int) else '=',
       if n > 1 then B32Char(S3(b1, b2) as int) else '=',
       if n > 2 then B32Char(S4(b2, b3) as int) else '=',
       if n > 3 then B32Char(S5(b3) as int) else '=',
       if n > 3 then B32Char(S6(b3, b4) as int) else '=',
       if n > 4 then B32Char(S7(b4) as int) else '=']
  {
    Sym0(b0, b1, b2, b3, b4);
    Sym1(b0, b1, b2, b3, b4);
    Sym2(b0, b1, b2, b3, b4);
    Sym3(b0, b1, b2, b3, b4);
    Sym4(b0, b1, b2, b3, b4);
    Sym5(b0, b1, b2, b3, b4);
    Sym6(b0, b1, b2, b3, b4);
    Sym7(b0, b1, b2, b3, b4);
  }

  /** The C computation of a group is the RFC 4648 encoding of the group. */
  lemma CGroupEncodes(g: seq<byte>)
    requires 1 <= |g| <= 5
    ensures var p := Pad5(g); CGroup(GroupBits(p[0], p[1], p[2], p[3], p[4]), |g|) == EncodeGroup(g)
  {
    var p := Pad5(g);
    EncodeGroupChars(g, GroupSymbols(p));
    CGroupSymbols(p[0], p[1], p[2], p[3], p[4], |g|);
  }

  /**
   * The eight `out[k] = …` assignments of base32_enc: `c` is what they
   * store, CGroup of the group's bits, for a full group in the main loop
   * and for the final partial group after it.
   */
  method PutGroup(out: array<char>, o: nat, c: seq<char>)
    requires o + 8 <= out.Length && |c| == 8
    modifies out
    ensures out[..] == old(out[..o]) + c + old(out[o + 8..])
  {
    out[o] := c[0];
    out[o + 1] := c[1];
    out[o + 2] := c[2];
    out[o + 3] := c[3];
    out[o + 4] := c[4];
    out[o + 5] := c[5];
    out[o + 6] := c[6];
    out[o + 7] := c[7];
    assert out[o .. o + 8] == c;
    assert out[..o] == old(out[..o]) && out[o + 8..] == old(out[o + 8..]);
    assert out[..] == out[..o] + out[o .. o + 8] + out[o + 8..];
  }

  /** One turn of base32_enc's main loop: the five `bits |=` lines and the eight stores. */
  method FullGroup(input: seq<byte>, i: nat, out: array<char>, o: nat,
                   ghost q: nat, ghost enc: string, ghost was: seq<char>)
    requires i == 5 * q && i + 5 <= |input| && o == 8 * q <= |enc| && enc == Encode(input) && |enc| < |was| == out.Length
    requires out[..] == enc[..o] + was[o..]
    modifies out
    ensures o + 8 <= |enc| && out[..] == enc[..o + 8] + was[o + 8..]
  {
    EncodeAt(input, q);
    ghost var x := out[..];
    var bits := GroupBits(input[i], input[i + 1], input[i + 2], input[i + 3], input[i + 4]);
    ghost var g := input[i .. i + 5];
    assert Pad5(g) == g;
    CGroupEncodes(g);
    PutGroup(out, o, CGroup(bits, 5));
    Splice(was, x, out[..], o, 8, enc, EncodeGroup(g));
  }

  /**
   * The `switch (ilen)` of base32_enc's final partial group, whose cases
   * fall through: in[3], in[2], in[1] as far as present, then in[0].
   * The missing bytes count as zero.
   */
  method TailBits(input: seq<byte>, i: nat) returns (bits: bv64)
    requires i < |input| < i + 5
    ensures var p := Pad5(input[i..]); bits == GroupBits(p[0], p[1], p[2], p[3], p[4])
  {
    var ilen := |input| - i;
    bits := 0;
    if ilen == 4 {
      bits := bits | ((input[i + 3] as bv64) << 8);
    }
    if ilen >= 3 {
      bits := bits | ((input[i + 2] as bv64) << 16);
    }
    if ilen >= 2 {
      bits := bits | ((input[i + 1] as bv64) << 24);
    }
    bits := bits | ((input[i] as bv64) << 32);
    ghost var p := Pad5(input[i..]);
    assert p[0] == input[i] && p[4] == 0;
    assert p[1] == if ilen > 1 then input[i + 1] else 0;
    assert p[2] == if ilen > 2 then input[i + 2] else 0;
    assert p[3] == if ilen > 3 then input[i + 3] else 0;
  }

  /** The final partial group of base32_enc: its bits, then the eight stores with '=' for the missing symbols. */
  method FinalGroup(input: seq<byte>, i: nat, out: array<char>, o: nat,
                    ghost q: nat, ghost enc: string, ghost was: seq<char>)
    requires i == 5 * q && i < |input| < i + 5 && o == 8 * q <= |enc| && enc == Encode(input) && |enc| < |was| == out.Length
    requires out[..] == enc[..o] + was[o..]
    modifies out
    ensures o + 8 <= |enc| && out[..] == enc[..o + 8] + was[o + 8..]
  {
    EncodeAt(input, q);
    ghost var x := out[..];
    var bits := TailBits(input, i);
    CGroupEncodes(input[i..]);
    PutGroup(out, o, CGroup(bits, |input| - i));
    Splice(was, x, out[..], o, 8, enc, EncodeGroup(input[i..]));
  }

  /**
   * The loops of base32_enc that fill `out`: each whole group of five
   * bytes, then the final partial group. Returns how many characters
   * were written.
   */
  method EncodeGroups(input: seq<byte>, out: array<char>) returns (o: nat)
    requires |Encode(input)| < out.Length
    modifies out
    ensures o == |Encode(input)|
    ensures out[..] == Encode(input) + old(out[o..])
  {
    ghost var was := out[..];
    ghost var enc := Encode(input);
    var ilen := |input|;
    var i := 0;
    o := 0;
    ghost var q := 0;
    while ilen >= 5
      invariant i == 5 * q <= |input| && ilen == |input| - i && o == 8 * q <= |enc|
      invariant out[..] == enc[..o] + was[o..]
    {
      FullGroup(input, i, out, o, q, enc, was);
      ilen := ilen - 5;
      i := i + 5;
      q := q + 1;
      o := o + 8;
    }
    EncodeTail(input, q);
    if ilen > 0 {
      FinalGroup(input, i, out, o, q, enc, was);
      o := o + 8;
    }
    assert enc[..o] == enc;
  }

  /**
   * base32_enc: encode `input` into the buffer `out`, whose capacity the
   * caller gives as `olen`. Returns the status and the new `*olen`: on
   * success the characters written including the NUL, on failure the
   * capacity that would have been needed.
   */
  method Base32Enc(input: seq<byte>, out: array<char>, olen: nat) returns (ret: int, olenOut: nat)
    requires olen <= out.Length
    modifies out
    ensures olenOut == Base32EncLen(|input|) + 1
    ensures olen <= Base32EncLen(|input|) ==> ret == -1 && out[..] == old(out[..])
    ensures olen > Base32EncLen(|input|) ==>
      ret == 0 && out[..] == Encode(input) + ['\0'] + old(out[Base32EncLen(|input|) + 1 ..])
  {
    var enclen := Base32EncLen(|input|);
    if olen <= enclen {
      return -1, enclen + 1;
    }
    EncodeLength(input);
    var o := EncodeGroups(input, out);
    ghost var x := out[..];
    out[o] := '\0';
    Terminate(old(out[..]), x, out[..], o, Encode(input));
    return 0, o + 1;
  }

  // ---------------------------------------------------------------------
  // Decoding

  /**
   * The decoder's state between two characters: the accumulator `bits`
   * (C `int`, kept modulo 2^32), the count `shift` of pending bits, the
   * `padding` flag and every byte decoded so far (`len` is its length).
   */
  datatype DecState = DecState(bits: bv32, shift: int, padding: bool, out: seq<byte>)

  const Init := DecState(0, 0, false, [])

  predicate Good(d: DecState) { 0 <= d.shift < 8 }

  /** `(bits >> shift) & 0xff`: the eight bits above the `shift` lowest. */
  function Top8(bits: bv32, shift: nat): byte
    requires shift < 5
  {
    if shift == 0 then (bits & 0xff) as byte
    else if shift == 1 then ((bits >> 1) & 0xff) as byte
    else if shift == 2 then ((bits >> 2) & 0xff) as byte
    else if shift == 3 then ((bits >> 3) & 0xff) as byte
    else ((bits >> 4) & 0xff) as byte
  }

  /** "output accumulated byte": once 8 bits are pending, emit the top eight of them. */
  function Emit(d: DecState): (r: DecState)
    requires 0 <= d.shift < 13
    ensures Good(r) && r.padding == d.padding
  {
    if d.shift >= 8 then
      DecState(d.bits, d.shift - 8, d.padding, d.out + [Top8(d.bits, d.shift - 8)])
    else d
  }

  /** One iteration of the decoding loop; None is the error exit. */
  function Step(d: DecState, c: char): (r: Option<DecState>)
    requires Good(d)
    ensures r.Some? ==> Good(r.value)
  {
    if IsSpace(c) || (d.padding && c == '=') then Some(d)
    else if !d.padding && B32Dec(c) >= 0 then
      Some(Emit(DecState((d.bits << 5) | ((B32Dec(c) as byte) as bv32), d.shift + 5, d.padding, d.out)))
    else if !d.padding && d.shift > 0 && d.shift < 5 && c == '=' then
      Some(DecState(d.bits, 0, true, d.out))
    else None
  }

  /** Runs the loop over `w`; the flag is false when it took the error exit. */
  function Run(d: DecState, w: string): (r: (DecState, bool))
    requires Good(d)
    ensures Good(r.0)
    decreases |w|
  {
    if w == [] then (d, true)
    else match Step(d, w[0])
      case None => (d, false)
      case Some(d') => Run(d', w[1..])
  }

  /** What base32_dec makes of the characters it visits. */
  function Decode(w: string): DecodeResult
  {
    var r := Run(Init, w);
    if r.1 then Decoded(r.0.out) else Invalid(r.0.out)
  }

  /** The run from a state over a non-empty rest is the step, then the run from there. */
  lemma RunUnfold(d: DecState, w: string, c: char)
    requires Good(d) && w != [] && w[0] == c
    ensures Run(d, w) == match Step(d, c) case None => (d, false) case Some(d') => Run(d', w[1..])
  {
  }

  /** The byte the loop stores is the byte Emit appends. */
  lemma EmitByte(pre: DecState, shift: int, x: byte)
    requires 8 <= pre.shift < 13 && shift == pre.shift - 8 && x == Top8(pre.bits, shift)
    ensures Emit(pre) == DecState(pre.bits, shift, pre.padding, pre.out + [x])
  {
  }

  lemma RunStep(d: DecState, w: string, d': DecState)
    requires Good(d) && Good(d') && w != [] && Step(d, w[0]) == Some(d')
    ensures Run(d, w) == Run(d', w[1..])
  {
  }

  /**
   * The first half of a turn of the decoding loop over character `c`: skip
   * whitespace (and '=' once padding started), shift in the value of an
   * alphabet character, start padding, or fail.
   */
  method ShiftIn(c: char, bits: bv32, shift: int, padding: bool, ghost decoded: seq<byte>)
    returns (ok: bool, bits': bv32, shift': int, padding': bool)
    requires 0 <= shift < 8
    ensures ok == Step(DecState(bits, shift, padding, decoded), c).Some?
    ensures ok ==> 0 <= shift' < 8 + 5
    ensures ok ==> Step(DecState(bits, shift, padding, decoded), c) == Some(Emit(DecState(bits', shift', padding', decoded)))
  {
    bits', shift', padding' := bits, shift, padding;
    if IsSpace(c) || (padding && c == '=') {
      ok := true;
    } else if !padding && B32Dec(c) >= 0 {
      shift' := shift + 5;
      bits' := (bits << 5) | ((B32Dec(c) as byte) as bv32);
      ok := true;
    } else if !padding && shift > 0 && shift < 5 && c == '=' {
      shift' := 0;
      padding' := true;
      ok := true;
    } else {
      ok := false;
    }
  }

  /**
   * base32_dec: decode at most `ilen` characters of `input` (stopping at a
   * NUL) into `out`, whose capacity the caller gives as `olen`. Returns the
   * status and the new `*olen`.
   */
  method Base32Dec(input: string, ilen: nat, out: array<byte>, olen: nat) returns (ret: int, olenOut: nat)
    requires olen <= out.Length
    modifies out
    ensures Holds(out[..], old(out[..]), Bytes(Decode(Window(input, ilen))), olen)
    ensures Decode(Window(input, ilen)).Invalid? ==> ret == -1 && olenOut == 0
    ensures Decode(Window(input, ilen)).Decoded? ==>
      olenOut == |Decode(Window(input, ilen)).data| && (ret == if olenOut > olen then -1 else 0)
  {
    ghost var w := Window(input, ilen);
    var bits: bv32 := 0;
    var shift := 0;
    var padding := false;
    var len := 0;
    var i := 0;
    var n := ilen;
    ghost var decoded: seq<byte> := [];
    while n > 0 && i < |input| && input[i] != '\0'
      invariant 0 <= i <= |w| && n == ilen - i
      invariant 0 <= shift < 8 && len == |decoded|
      invariant Run(Init, w) == Run(DecState(bits, shift, padding, decoded), w[i..])
      invariant Holds(out[..], old(out[..]), decoded, olen)
      decreases n
    {
      WindowAt(input, ilen, i);
      ghost var d := DecState(bits, shift, padding, decoded);
      assert w[i..][0] == input[i] && w[i..][1..] == w[i + 1..];
      var ok;
      ok, bits, shift, padding := ShiftIn(input[i], bits, shift, padding, decoded);
      if !ok {
        RunUnfold(d, w[i..], input[i]);
        return -1, 0;
      }
      ghost var pre := DecState(bits, shift, padding, decoded);
      if shift >= 8 {
        shift := shift - 8;
        var x := Top8(bits, shift);
        EmitByte(pre, shift, x);
        StoreByte(out, len, olen, x, old(out[..]), decoded);
        len := len + 1;
        decoded := decoded + [x];
      }
      assert DecState(bits, shift, padding, decoded) == Emit(pre);
      RunStep(d, w[i..], DecState(bits, shift, padding, decoded));
      n, i := n - 1, i + 1;
    }
    assert i == |w|;
    assert w[i..] == [];
    if len > olen {
      return -1, len;
    }
    return 0, len;
  }

  // ---------------------------------------------------------------------
  // Properties of the decoder

  /** Running over a concatenation is running over each part in turn. */
  lemma {:induction false} RunConcat(d: DecState, a: string, b: string)
    requires Good(d)
    ensures Run(d, a + b) == if Run(d, a).1 then Run(Run(d, a).0, b) else Run(d, a)
    decreases |a|
  {
    if a == [] {
      assert a + b == b;
    } else {
      assert (a + b)[0] == a[0];
      assert (a + b)[1..] == a[1..] + b;
      RunUnfold(d, a + b, a[0]);
      RunUnfold(d, a, a[0]);
      match Step(d, a[0])
      case None =>
      case Some(d') => RunConcat(d', a[1..], b);
    }
  }

  /** Each visited character adds at most five bits: eight bits per byte out. */
  lemma {:induction false} RunBits(d: DecState, w: string)
    requires Good(d)
    ensures 8 * |Run(d, w).0.out| + Run(d, w).0.shift <= 8 * |d.out| + d.shift + 5 * |w|
    decreases |w|
  {
    if w != [] {
      match Step(d, w[0])
      case None =>
      case Some(d') => RunBits(d', w[1..]);
    }
  }

  /** base32_declen(l) bytes always hold what l characters decode to. */
  lemma DecodeFitsDecLen(w: string)
    ensures |Bytes(Decode(w))| <= Base32DecLen(|w|)
  {
    RunBits(Init, w);
    var l := |w|;
    var q := (l + 7) / 8;
    assert l <= 8 * q;
    assert 8 * |Run(Init, w).0.out| <= 5 * l <= 40 * q;
  }

  /** Whitespace anywhere in the visited characters is skipped: removing it changes nothing. */
  lemma SpaceIsSkipped(a: string, c: char, b: string)
    requires IsSpace(c)
    ensures Decode(a + [c] + b) == Decode(a + b)
  {
    RunConcat(Init, a, [c] + b);
    RunConcat(Init, a, b);
    assert a + [c] + b == a + ([c] + b);
    if Run(Init, a).1 {
      assert ([c] + b)[0] == c && ([c] + b)[1..] == b;
    }
  }

  /** A character that is neither whitespace, nor '=', nor in the alphabet makes decoding fail. */
  lemma InvalidCharacterFails(a: string, c: char, b: string)
    requires !IsSpace(c) && c != '=' && B32Dec(c) < 0
    ensures Decode(a + [c] + b).Invalid?
  {
    RunConcat(Init, a, [c] + b);
    assert a + [c] + b == a + ([c] + b);
    assert ([c] + b)[0] == c;
  }

  /** After the first '=' only '=' and whitespace may follow: anything else fails. */
  lemma NoDataAfterPadding(a: string, c: char, b: string)
    requires Run(Init, a).1 && Run(Init, a).0.padding
    requires !IsSpace(c) && c != '='
    ensures Decode(a + [c] + b).Invalid?
  {
    RunConcat(Init, a, [c] + b);
    assert a + [c] + b == a + ([c] + b);
    assert ([c] + b)[0] == c;
  }

  /** '=' is accepted as the first padding character only while 1 to 4 bits are pending. */
  lemma PaddingNeedsPendingBits(a: string, b: string)
    requires Run(Init, a).1 && !Run(Init, a).0.padding
    requires !(0 < Run(Init, a).0.shift < 5)
    ensures Decode(a + ['='] + b).Invalid?
  {
    RunConcat(Init, a, ['='] + b);
    assert a + ['='] + b == a + (['='] + b);
    assert (['='] + b)[0] == '=';
  }

  // The round trip, symbol by symbol.

  /** Shifting one 5-bit symbol into the accumulator (and emitting a byte if 8 bits are pending). */
  function Feed(d: DecState, v: bv8): (r: DecState)
    requires Good(d)
    ensures Good(r) && r.padding == d.padding
  {
    Emit(DecState((d.bits << 5) | (v as bv32), d.shift + 5, d.padding, d.out))
  }

  /** Feeding a sequence of symbols, first to last. */
  function FeedAll(d: DecState, vs: seq<bv8>): (r: DecState)
    requires Good(d)
    ensures Good(r) && r.padding == d.padding
    decreases |vs|
  {
    if vs == [] then d else Feed(FeedAll(d, vs[..|vs| - 1]), vs[|vs| - 1])
  }

  /** Reading the characters of some symbols feeds those symbols. */
  lemma {:induction false} RunChars(d: DecState, vs: seq<bv8>, rest: string)
    requires Good(d) && !d.padding
    requires forall j | 0 <= j < |vs| :: vs[j] < 32
    ensures Run(d, Chars(vs) + rest) == Run(FeedAll(d, vs), rest)
    decreases |vs|
  {
    if vs != [] {
      var m := |vs| - 1;
      var c := B32Char(vs[m] as int);
      assert Chars(vs) + rest == Chars(vs[..m]) + ([c] + rest);
      RunChars(d, vs[..m], [c] + rest);
      StepSymbol(FeedAll(d, vs[..m]), vs[m]);
      RunUnfold(FeedAll(d, vs[..m]), [c] + rest, c);
      assert ([c] + rest)[1..] == rest;
    } else {
      assert Chars(vs) + rest == rest;
    }
  }

  /** Reading the character of a symbol feeds the symbol. */
  lemma StepSymbol(d: DecState, v: bv8)
    requires Good(d) && !d.padding && v < 32
    ensures Step(d, B32Char(v as int)) == Some(Feed(d, v))
  {
    SymbolBits(v);
  }

  /** The character of a symbol is an alphabet character whose table value, as bits, is the symbol. */
  lemma SymbolBits(v: bv8)
    requires v < 32
    ensures !IsSpace(B32Char(v as int)) && B32Dec(B32Char(v as int)) >= 0
    ensures (B32Dec(B32Char(v as int)) as byte) as bv32 == v as bv32
  {
    B32DecInvertsB32Char(v as int);
    SymbolAsBits(v);
  }

  lemma FeedAllSnoc(d: DecState, vs: seq<bv8>, k: nat)
    requires Good(d) && k < |vs|
    ensures FeedAll(d, vs[..k + 1]) == Feed(FeedAll(d, vs[..k]), vs[k])
  {
    assert vs[..k + 1][..k] == vs[..k];
  }

  lemma Byte0(x: bv32, b0: byte, b1: byte)
    ensures ((((((x << 5) | (S0(b0) as bv32)) << 5) | (S1(b0, b1) as bv32)) >> 2) & 0xff) as byte == b0
  {
  }

  lemma Byte1(z: bv32, b0: byte, b1: byte, b2: byte)
    ensures ((((((((z << 5) | (S1(b0, b1) as bv32)) << 5) | (S2(b1) as bv32)) << 5) | (S3(b1, b2) as bv32)) >> 4) & 0xff) as byte == b1
  {
  }

  lemma Byte2(z: bv32, b1: byte, b2: byte, b3: byte)
    ensures ((((((z << 5) | (S3(b1, b2) as bv32)) << 5) | (S4(b2, b3) as bv32)) >> 1) & 0xff) as byte == b2
  {
  }

  lemma Byte3(z: bv32, b2: byte, b3: byte, b4: byte)
    ensures ((((((((z << 5) | (S4(b2, b3) as bv32)) << 5) | (S5(b3) as bv32)) << 5) | (S6(b3, b4) as bv32)) >> 3) & 0xff) as byte == b3
  {
  }

  lemma Byte4(z: bv32, b3: byte, b4: byte)
    ensures (((((z << 5) | (S6(b3, b4) as bv32)) << 5) | (S7(b4) as bv32)) & 0xff) as byte == b4
  {
  }

  // Each lemma below feeds the symbols that complete one byte. The states
  // are parameters, so that callers reason about states and not about bits.

  lemma Feed01(d: DecState, s1: DecState, s2: DecState, b0: byte, b1: byte)
    requires Good(d) && d.shift == 0 && s1 == Feed(d, S0(b0)) && s2 == Feed(s1, S1(b0, b1))
    ensures s1.shift == 5 && s2.shift == 2 && s2.out == d.out + [b0]
  {
    Byte0(d.bits, b0, b1);
  }

  lemma Feed23(s1: DecState, s2: DecState, s3: DecState, s4: DecState, b0: byte, b1: byte, b2: byte)
    requires Good(s1) && s1.shift == 5 && s2 == Feed(s1, S1(b0, b1))
    requires s3 == Feed(s2, S2(b1)) && s4 == Feed(s3, S3(b1, b2))
    ensures s3.shift == 7 && s4.shift == 4 && s4.out == s2.out + [b1]
  {
    Byte1(s1.bits, b0, b1, b2);
  }

  lemma Feed4(s3: DecState, s4: DecState, s5: DecState, b1: byte, b2: byte, b3: byte)
    requires Good(s3) && s3.shift == 7 && s4 == Feed(s3, S3(b1, b2)) && s5 == Feed(s4, S4(b2, b3))
    ensures s5.shift == 1 && s5.out == s4.out + [b2]
  {
    Byte2(s3.bits, b1, b2, b3);
  }

  lemma Feed56(s4: DecState, s5: DecState, s6: DecState, s7: DecState, b2: byte, b3: byte, b4: byte)
    requires Good(s4) && s4.shift == 4 && s5 == Feed(s4, S4(b2, b3))
    requires s6 == Feed(s5, S5(b3)) && s7 == Feed(s6, S6(b3, b4))
    ensures s6.shift == 6 && s7.shift == 3 && s7.out == s5.out + [b3]
  {
    Byte3(s4.bits, b2, b3, b4);
  }

  lemma Feed7(s6: DecState, s7: DecState, s8: DecState, b3: byte, b4: byte)
    requires Good(s6) && s6.shift == 6 && s7 == Feed(s6, S6(b3, b4)) && s8 == Feed(s7, S7(b4))
    ensures s8.shift == 0 && s8.out == s7.out + [b4]
  {
    Byte4(s6.bits, b3, b4);
  }

  /** The symbols of five bytes, fed from a group boundary through states s1 … s8, emit the five bytes in order. */
  lemma FeedBytes(d: DecState, s1: DecState, s2: DecState, s3: DecState, s4: DecState,
                  s5: DecState, s6: DecState, s7: DecState, s8: DecState,
                  b0: byte, b1: byte, b2: byte, b3: byte, b4: byte)
    requires Good(d) && d.shift == 0
    requires Good(s1) && s1 == Feed(d, S0(b0))
    requires Good(s2) && s2 == Feed(s1, S1(b0, b1))
    requires Good(s3) && s3 == Feed(s2, S2(b1))
    requires Good(s4) && s4 == Feed(s3, S3(b1, b2))
    requires Good(s5) && s5 == Feed(s4, S4(b2, b3))
    requires Good(s6) && s6 == Feed(s5, S5(b3))
    requires Good(s7) && s7 == Feed(s6, S6(b3, b4))
    requires s8 == Feed(s7, S7(b4))
    ensures s2.out == d.out + [b0] && s2.shift == 2
    ensures s4.out == s2.out + [b1] && s4.shift == 4
    ensures s5.out == s4.out + [b2] && s5.shift == 1
    ensures s7.out == s5.out + [b3] && s7.shift == 3
    ensures s8.out == s7.out + [b4] && s8.shift == 0
  {
    Feed01(d, s1, s2, b0, b1);
    Feed23(s1, s2, s3, s4, b0, b1, b2);
    Feed4(s3, s4, s5, b1, b2, b3);
    Feed56(s4, s5, s6, s7, b2, b3, b4);
    Feed7(s6, s7, s8, b3, b4);
  }

  /**
   * From a group boundary, the symbols of a group emit its bytes: after
   * 2, 4, 5, 7 and 8 symbols, the first 1, 2, 3, 4 and 5 bytes are out.
   */
  lemma FeedGroup(d: DecState, g: seq<byte>)
    requires Good(d) && d.shift == 0 && |g| == 5
    ensures var v := GroupSymbols(g);
      FeedAll(d, v[..2]).out == d.out + g[..1] && FeedAll(d, v[..2]).shift == 2 &&
      FeedAll(d, v[..4]).out == d.out + g[..2] && FeedAll(d, v[..4]).shift == 4 &&
      FeedAll(d, v[..5]).out == d.out + g[..3] && FeedAll(d, v[..5]).shift == 1 &&
      FeedAll(d, v[..7]).out == d.out + g[..4] && FeedAll(d, v[..7]).shift == 3 &&
      FeedAll(d, v[..8]).out == d.out + g && FeedAll(d, v[..8]).shift == 0
  {
    var v := GroupSymbols(g);
    FeedAllPrefixes(d, v);
    var s1, s2, s3, s4 := FeedAll(d, v[..1]), FeedAll(d, v[..2]), FeedAll(d, v[..3]), FeedAll(d, v[..4]);
    var s5, s6, s7, s8 := FeedAll(d, v[..5]), FeedAll(d, v[..6]), FeedAll(d, v[..7]), FeedAll(d, v[..8]);
    FeedBytes(d, s1, s2, s3, s4, s5, s6, s7, s8, g[0], g[1], g[2], g[3], g[4]);
    OutChain(d.out, g, s2.out, s4.out, s5.out, s7.out, s8.out);
  }

  /** Five bytes appended one at a time are the group appended. */
  lemma OutChain(a: seq<byte>, g: seq<byte>, o1: seq<byte>, o2: seq<byte>, o3: seq<byte>, o4: seq<byte>, o5: seq<byte>)
    requires |g| == 5
    requires o1 == a + [g[0]] && o2 == o1 + [g[1]] && o3 == o2 + [g[2]] && o4 == o3 + [g[3]] && o5 == o4 + [g[4]]
    ensures o1 == a + g[..1] && o2 == a + g[..2] && o3 == a + g[..3] && o4 == a + g[..4] && o5 == a + g
  {
    AppendNext(a, g, 0);
    AppendNext(a, g, 1);
    AppendNext(a, g, 2);
    AppendNext(a, g, 3);
    AppendNext(a, g, 4);
    assert g[..5] == g;
  }

  lemma FeedAllPrefixes(d: DecState, v: seq<bv8>)
    requires Good(d)
    ensures FeedAll(d, v[..0]) == d
    ensures forall k | 0 <= k < |v| :: FeedAll(d, v[..k + 1]) == Feed(FeedAll(d, v[..k]), v[k])
  {
    assert v[..0] == [];
    forall k | 0 <= k < |v|
      ensures FeedAll(d, v[..k + 1]) == Feed(FeedAll(d, v[..k]), v[k])
    {
      FeedAllSnoc(d, v, k);
    }
  }

  /** '=' characters after the first padding character are consumed. */
  lemma {:induction false} PaddingRun(p: DecState, k: nat)
    requires Good(p) && p.padding
    ensures Run(p, Pads(k)) == (p, true)
    decreases k
  {
    if k > 0 {
      assert Pads(k)[1..] == Pads(k - 1);
      PaddingRun(p, k - 1);
    }
  }

  /**
   * Decoding the symbols of a group of n bytes and the first `p` of its
   * '=' padding characters appends exactly those n bytes; a full group
   * ends on a group boundary.
   */
  lemma DecodeGroup(d: DecState, g: seq<byte>, p: nat) returns (r: DecState)
    requires Good(d) && d.shift == 0 && !d.padding && 1 <= |g| <= 5
    requires p <= 8 - SymbolCount(|g|)
    ensures Run(d, Symbols(g) + Pads(p)) == (r, true)
    ensures r.out == d.out + g && (|g| == 5 ==> r.shift == 0 && !r.padding)
  {
    var v := GroupSymbols(Pad5(g));
    var k := SymbolCount(|g|);
    RunChars(d, v[..k], Pads(p));
    var e := FeedAll(d, v[..k]);
    GroupSymbolsFed(d, g, e);
    if p > 0 {
      r := PaddingStarts(e, p);
    } else {
      assert Pads(0) == [];
      r := e;
    }
  }

  /** After the symbols of a group, its bytes are out; a partial group leaves 1 to 4 bits pending. */
  lemma GroupSymbolsFed(d: DecState, g: seq<byte>, e: DecState)
    requires Good(d) && d.shift == 0 && !d.padding && 1 <= |g| <= 5
    requires e == FeedAll(d, GroupSymbols(Pad5(g))[..SymbolCount(|g|)])
    ensures e.out == d.out + g && !e.padding
    ensures |g| == 5 ==> e.shift == 0
    ensures |g| < 5 ==> 0 < e.shift < 5
  {
    FeedGroup(d, Pad5(g));
    if |g| == 5 {
      assert Pad5(g) == g;
    }
  }

  /** The first '=' of a group's padding, and the rest of it, while 1 to 4 bits are pending. */
  lemma PaddingStarts(e: DecState, p: nat) returns (r: DecState)
    requires Good(e) && !e.padding && 0 < e.shift < 5 && p > 0
    ensures Run(e, Pads(p)) == (r, true) && r.out == e.out
  {
    r := DecState(e.bits, 0, true, e.out);
    assert Step(e, '=') == Some(r);
    assert Pads(p)[0] == '=' && Pads(p)[1..] == Pads(p - 1);
    PaddingRun(r, p - 1);
  }

  /** Decoding an encoding from a group boundary appends the encoded bytes. */
  lemma {:induction false} RunEncode(d: DecState, s: seq<byte>)
    requires Good(d) && d.shift == 0 && !d.padding
    ensures Run(d, Encode(s)).1 && Run(d, Encode(s)).0.out == d.out + s
    ensures |s| % 5 == 0 ==> Run(d, Encode(s)).0.shift == 0 && !Run(d, Encode(s)).0.padding
    decreases |s|
  {
    if |s| >= 5 {
      var d' := FullGroupRun(d, s[..5]);
      RunEncode(d', s[5..]);
      RunEncodeCons(d, s, d');
      GroupRemainder(s);
    } else if |s| > 0 {
      assert |s| % 5 != 0;
      FinalGroupRun(d, s);
    } else {
      assert Encode(s) == [];
    }
  }

  /** A final partial group with all its padding: its bytes, and the run succeeds. */
  lemma FinalGroupRun(d: DecState, g: seq<byte>)
    requires Good(d) && d.shift == 0 && !d.padding && 1 <= |g| < 5
    ensures Run(d, Encode(g)).1 && Run(d, Encode(g)).0.out == d.out + g
  {
    var r := DecodeGroup(d, g, 8 - SymbolCount(|g|));
  }

  /** The bytes after the first group: they complete the output, and whole groups remain whole. */
  lemma GroupRemainder(s: seq<byte>)
    requires |s| >= 5
    ensures s[..5] + s[5..] == s && |s[5..]| % 5 == |s| % 5
  {
  }

  /** Running over an encoding of at least one full group: the group, then the rest. */
  lemma RunEncodeCons(d: DecState, s: seq<byte>, d': DecState)
    requires Good(d) && |s| >= 5 && Run(d, EncodeGroup(s[..5])) == (d', true)
    ensures Run(d, Encode(s)) == Run(d', Encode(s[5..]))
  {
    RunConcat(d, EncodeGroup(s[..5]), Encode(s[5..]));
  }

  /** A full group of eight symbols from a group boundary: its five bytes, and the next boundary. */
  lemma FullGroupRun(d: DecState, g: seq<byte>) returns (d': DecState)
    requires Good(d) && d.shift == 0 && !d.padding && |g| == 5
    ensures Run(d, EncodeGroup(g)) == (d', true)
    ensures Good(d') && d'.out == d.out + g && d'.shift == 0 && !d'.padding
  {
    assert Symbols(g) + Pads(0) == EncodeGroup(g);
    d' := DecodeGroup(d, g, 0);
  }

  /** Round trip: base32_dec of base32_enc's output returns the original bytes. */
  lemma DecodeEncode(s: seq<byte>)
    ensures Decode(Encode(s)) == Decoded(s)
    ensures Decode(Window(Encode(s), |Encode(s)|)) == Decoded(s)
  {
    EncodeCharacters(s);
    WindowOfNulFree(Encode(s));
    RunEncode(Init, s);
    assert Init.out + s == s;
  }

  /** How many '=' the encoding of l bytes ends with. */
  function PadCount(l: nat): nat
  {
    if l % 5 == 0 then 0 else 8 - SymbolCount(l % 5)
  }

  /**
   * Sloppy padding: an encoding with any number of its trailing '='
   * characters dropped still decodes to the original bytes.
   */
  lemma DecodeSloppyPadding(s: seq<byte>, drop: nat)
    requires drop <= PadCount(|s|)
    ensures drop <= |Encode(s)|
    ensures Decode(Encode(s)[..|Encode(s)| - drop]) == Decoded(s)
  {
    if drop == 0 {
      DecodeEncode(s);
      assert Encode(s)[..|Encode(s)|] == Encode(s);
    } else {
      Remainder(|s|);
      DropFromPartial(s, |s| - |s| % 5, drop);
    }
  }

  /** Dropping some of the '=' that complete a final partial group. */
  lemma DropFromPartial(s: seq<byte>, q: nat, drop: nat)
    requires q % 5 == 0 && q < |s| < q + 5 && drop <= 8 - SymbolCount(|s| - q)
    ensures drop <= |Encode(s)|
    ensures Decode(Encode(s)[..|Encode(s)| - drop]) == Decoded(s)
  {
    var a, g := s[..q], s[q..];
    assert a + g == s;
    DroppedShape(s, a, g, drop);
    DecodeGroupsThenPartial(a, g, SymbolCount(|g|), 8 - SymbolCount(|g|) - drop, Encode(s)[..|Encode(s)| - drop], s);
  }

  /** An encoding ending in a partial group, with `drop` of its '=' dropped: whole groups, symbols, the other '='. */
  lemma DroppedShape(s: seq<byte>, a: seq<byte>, g: seq<byte>, drop: nat)
    requires |a| % 5 == 0 && 1 <= |g| < 5 && s == a + g && drop <= 8 - SymbolCount(|g|)
    ensures drop <= |Encode(s)|
    ensures Encode(s)[..|Encode(s)| - drop] == Encode(a) + (Symbols(g) + Pads(8 - SymbolCount(|g|) - drop))
  {
    LastGroup(s, a, g);
    DropPads(Encode(s), Encode(a), Symbols(g), 8 - SymbolCount(|g|), drop);
  }

  /** Whole groups, then the symbols of a partial group and some of its '=', decode to all the bytes. */
  lemma DecodeGroupsThenPartial(a: seq<byte>, g: seq<byte>, k: nat, p: nat, w: string, b: seq<byte>)
    requires |a| % 5 == 0 && 1 <= |g| < 5 && k == SymbolCount(|g|) && p <= 8 - k
    requires w == Encode(a) + (Symbols(g) + Pads(p)) && b == a + g
    ensures Decode(w) == Decoded(b)
  {
    var tail := Symbols(g) + Pads(p);
    RunEncode(Init, a);
    var d1 := Run(Init, Encode(a)).0;
    assert d1.out == a by {
      assert Init.out + a == a;
    }
    var r := DecodeGroup(d1, g, p);
    RunConcat(Init, Encode(a), tail);
  }

  /** Cutting l bytes into whole groups and a remainder. */
  lemma Remainder(l: nat)
    ensures 0 <= l % 5 < 5 && l % 5 <= l && (l - l % 5) % 5 == 0
  {
  }

  /** The encoding of bytes that end in a partial group: the full groups, the symbols, the '='. */
  lemma LastGroup(s: seq<byte>, a: seq<byte>, g: seq<byte>)
    requires |a| % 5 == 0 && 1 <= |g| < 5 && s == a + g
    ensures Encode(s) == Encode(a) + (Symbols(g) + Pads(8 - SymbolCount(|g|)))
  {
    EncodeConcat(a, g);
    assert Encode(g) == EncodeGroup(g);
  }

  // ---------------------------------------------------------------------
  // RFC 4648 section 10 test vectors

  lemma EncodeVector1()
    ensures Encode([]) == ""
    ensures Encode([0x66]) == "MY======"
  {
  }

  lemma EncodeVector2()
    ensures Encode([0x66, 0x6f]) == "MZXQ===="
  {
  }

  lemma EncodeVector3()
    ensures Encode([0x66, 0x6f, 0x6f]) == "MZXW6==="
  {
  }

  lemma EncodeVector4()
    ensures Encode([0x66, 0x6f, 0x6f, 0x62]) == "MZXW6YQ="
  {
  }

  lemma EncodeVector5()
    ensures Encode([0x66, 0x6f, 0x6f, 0x62, 0x61]) == "MZXW6YTB"
  {
  }

  lemma EncodeVector6()
    ensures Encode([0x66, 0x6f, 0x6f, 0x62, 0x61, 0x72]) == "MZXW6YTBOI======"
  {
    EncodeVector5();
    var s: seq<byte> := [0x66, 0x6f, 0x6f, 0x62, 0x61, 0x72];
    assert s[..5] == [0x66, 0x6f, 0x6f, 0x62, 0x61] && s[5..] == [0x72];
    assert Encode([0x72]) == "OI======";
  }

  lemma DecodeVector4()
    ensures Decode("MZXW6YQ=") == Decoded([0x66, 0x6f, 0x6f, 0x62])
  {
    EncodeVector4();
    DecodeEncode([0x66, 0x6f, 0x6f, 0x62]);
  }

  /** "MY" and "MY=" are "MY======" with padding dropped. */
  lemma DecodeVectorsSloppy()
    ensures Decode("MY") == Decoded([0x66])
    ensures Decode("MY=") == Decoded([0x66])
  {
    EncodeVector1();
    DecodeSloppyPadding([0x66], 6);
    assert "MY======"[..2] == "MY";
    DecodeSloppyPadding([0x66], 5);
    assert "MY======"[..3] == "MY=";
  }

  lemma RejectVectors()
    ensures Decode("my").Invalid?
    ensures Decode("M!").Invalid?
    ensures Decode("=MY").Invalid?
  {
    InvalidCharacterFails("", 'm', "y");
    assert "" + ['m'] + "y" == "my";
    InvalidCharacterFails("M", '!', "");
    assert "M" + ['!'] + "" == "M!";
    PaddingNeedsPendingBits("", "MY");
    assert "" + ['='] + "MY" == "=MY";
  }

  // ---------------------------------------------------------------------
  // base32_enc reads its input through a plain `const char *`

  /** `(uint64_t)in[k]` of a signed char: bytes from 0x80 up are sign-extended. */
  function SignExtend(b: byte): bv64
  {
    if b >= 0x80 then (b as bv64) | 0xFFFF_FFFF_FFFF_FF00 else b as bv64
  }

  /** `bits` of a group as written, with the bytes read as signed chars. */
  function GroupBitsAsWritten(g: seq<byte>): bv64
    requires 1 <= |g| <= 5
  {
    (SignExtend(g[0]) << 32) |
    (if |g| > 1 then SignExtend(g[1]) << 24 else 0) |
    (if |g| > 2 then SignExtend(g[2]) << 16 else 0) |
    (if |g| > 3 then SignExtend(g[3]) << 8 else 0) |
    (if |g| > 4 then SignExtend(g[4]) else 0)
  }

  /** The eight characters base32_enc writes for a group when `char` is signed. */
  function EncodeGroupAsWritten(g: seq<byte>): (r: string)
    requires 1 <= |g| <= 5
    ensures |r| == 8
  {
    CGroup(GroupBitsAsWritten(g), |g|)
  }

  /** With only bytes below 0x80 the signed read is harmless. */
  lemma AsWrittenAgreesBelow0x80(g: seq<byte>)
    requires 1 <= |g| <= 5
    requires forall j | 0 <= j < |g| :: g[j] < 0x80
    ensures EncodeGroupAsWritten(g) == EncodeGroup(g)
  {
    var p := Pad5(g);
    forall j | 0 <= j < 5
      ensures (if j < |g| then SignExtend(g[j]) else 0) == p[j] as bv64
    {
      if j >= |g| {
        assert p[j] == 0;
      }
    }
    assert GroupBitsAsWritten(g) == GroupBits(p[0], p[1], p[2], p[3], p[4]);
    CGroupEncodes(g);
  }

  /**
   * The byte 0x80 after 0x00 is sign-extended into the bits of the first
   * byte: the group encodes as "76AA====", which decodes to 0xff 0x80.
   */
  lemma SignExtensionBreaksRoundTrip()
    ensures EncodeGroupAsWritten([0x00, 0x80]) == "76AA===="
    ensures Decode("76AA====") == Decoded([0xff, 0x80])
    ensures Encode([0x00, 0x80]) == "ACAA===="
  {
    SignExtendedGroup();
    SignExtensionVectors();
    DecodeEncode([0xff, 0x80]);
  }

  /** The correct encodings of 0x00 0x80 and of 0xff 0x80. */
  lemma SignExtensionVectors()
    ensures Encode([0x00, 0x80]) == "ACAA===="
    ensures Encode([0xff, 0x80]) == "76AA===="
  {
    assert Pad5([0x00, 0x80]) == [0x00, 0x80, 0, 0, 0];
    assert GroupSymbols([0x00, 0x80, 0, 0, 0])[..4] == [0, 2, 0, 0];
    assert Symbols([0x00, 0x80]) == "ACAA";
    assert Pad5([0xff, 0x80]) == [0xff, 0x80, 0, 0, 0];
    assert GroupSymbols([0xff, 0x80, 0, 0, 0])[..4] == [31, 30, 0, 0];
    assert Symbols([0xff, 0x80]) == "76AA";
  }

  /** The bits base32_enc computes for the group 0x00 0x80 with signed chars. */
  lemma SignExtendedGroup()
    ensures EncodeGroupAsWritten([0x00, 0x80]) == "76AA===="
  {
    var bits := GroupBitsAsWritten([0x00, 0x80]);
    assert bits == 0xFFFF_FFFF_8000_0000 by {
      assert SignExtend(0x80) << 24 == 0xFFFF_FFFF_8000_0000;
    }
    assert Sym(bits >> 35) == '7' && Sym(bits >> 30) == '6';
    assert Sym(bits >> 25) == 'A' && Sym(bits >> 20) == 'A';
  }
}
