// Buffer vocabulary shared by the RFC 4648 encoders and decoders of
// oath_base32.c and oath_base64.c: whitespace, padding, and what an
// output buffer holds while it is being filled.

module Buffers {
  import opened CTypes

  /** The whitespace both decoders skip: space, tab, CR and LF. */
  predicate IsSpace(c: char) { c == ' ' || c == '\t' || c == '\r' || c == '\n' }

  /** k padding characters. */
  function Pads(k: nat): (r: string)
    ensures |r| == k && forall j | 0 <= j < k :: r[j] == '='
  {
    seq(k, _ => '=')
  }

  /** Writing the next n characters of `e` at `o` extends the prefix of `e` in the buffer. */
  lemma Splice(was: seq<char>, x: seq<char>, y: seq<char>, o: nat, n: nat, e: seq<char>, grp: seq<char>)
    requires o + n <= |was| && o + n <= |e| && e[o .. o + n] == grp
    requires x == e[..o] + was[o..] && y == x[..o] + grp + x[o + n..]
    ensures y == e[..o + n] + was[o + n..]
  {
    assert x[..o] == e[..o];
    assert x[o + n..] == was[o + n..];
    assert e[..o] + e[o .. o + n] == e[..o + n];
  }

  /** Storing the NUL right after the encoding. */
  lemma Terminate(was: seq<char>, x: seq<char>, y: seq<char>, o: nat, e: seq<char>)
    requires o < |was| && |e| == o
    requires x == e + was[o..] && y == x[o := '\0']
    ensures y == e + ['\0'] + was[o + 1..]
  {
    assert y[o + 1..] == x[o + 1..];
  }

  /**
   * What a decoder makes of the characters it visits: the bytes of a run
   * that reached the end, or the bytes decoded before an invalid character.
   */
  datatype DecodeResult = Invalid(partial: seq<byte>) | Decoded(data: seq<byte>)

  /** The bytes decoded, whether or not the run failed. */
  function Bytes(r: DecodeResult): seq<byte>
  {
    match r
    case Invalid(p) => p
    case Decoded(b) => b
  }

  /** `out` holds the first `cap` bytes of `data` and is otherwise as it was. */
  ghost predicate Holds(out: seq<byte>, was: seq<byte>, data: seq<byte>, cap: nat)
  {
    var m := Min(|data|, cap);
    |out| == |was| && m <= |out| && out[..m] == data[..m] && out[m..] == was[m..]
  }

  /** Storing the next byte only while there is room keeps Holds. */
  lemma HoldsNext(out: seq<byte>, was: seq<byte>, data: seq<byte>, cap: nat, x: byte)
    requires Holds(out, was, data, cap) && cap <= |out|
    ensures |data| < cap ==> Holds(out[|data| := x], was, data + [x], cap)
    ensures |data| >= cap ==> Holds(out, was, data + [x], cap)
  {
    if |data| < cap {
      var o' := out[|data| := x];
      assert o'[..|data| + 1] == (data + [x])[..|data| + 1];
    }
  }

  /**
   * `if (len++ < *olen) *out++ = x;`: the decoders store a byte only while
   * the buffer has room, and count it either way.
   */
  method StoreByte(out: array<byte>, len: nat, olen: nat, x: byte, ghost was: seq<byte>, ghost data: seq<byte>)
    requires olen <= out.Length && len == |data| && Holds(out[..], was, data, olen)
    modifies out
    ensures Holds(out[..], was, data + [x], olen)
  {
    HoldsNext(out[..], was, data, olen, x);
    if len < olen {
      out[len] := x;
    }
  }

  lemma AppendNext(a: seq<byte>, g: seq<byte>, k: nat)
    requires k < |g|
    ensures a + g[..k] + [g[k]] == a + g[..k + 1]
  {
    assert g[..k] + [g[k]] == g[..k + 1];
  }

  /** Dropping `drop` of the trailing '=' of a string. */
  lemma DropPads(e: string, front: string, body: string, n: nat, drop: nat)
    requires drop <= n && e == front + (body + Pads(n))
    ensures drop <= |e| && e[..|e| - drop] == front + (body + Pads(n - drop))
  {
    assert e[..|e| - drop] == front + (body + Pads(n - drop));
  }
}
