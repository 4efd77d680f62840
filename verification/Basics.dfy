/** Bytes, text and what several modules compute from them. */
module Basics {

  type Byte = b: int | 0 <= b < 256

  /** Character codes. */
  type Text = seq<Byte>

  const WORD_LIMIT := 0x1_0000_0000

  datatype Option<T> = None | Some(value: T)

  /** The bytes x stand in b from i on. */
  ghost predicate Has(b: seq<Byte>, i: nat, x: seq<Byte>) {
    i + |x| <= |b| && b[i..i + |x|] == x
  }

  lemma HasConcat(b: seq<Byte>, i: nat, x: seq<Byte>, y: seq<Byte>)
    ensures Has(b, i, x + y) <==> Has(b, i, x) && Has(b, i + |x|, y)
  {
    if i + |x + y| <= |b| {
      var w := b[i..i + |x + y|];
      assert b[i..i + |x|] == w[..|x|];
      assert b[i + |x|..i + |x| + |y|] == w[|x|..];
      assert w == w[..|x|] + w[|x|..];
    }
  }

  function Sum(bs: seq<Byte>): nat {
    if bs == [] then 0 else Sum(bs[..|bs| - 1]) + bs[|bs| - 1]
  }

  lemma {:induction false} SumUpdate(s: seq<Byte>, j: nat, v: Byte)
    requires j < |s|
    ensures Sum(s[j := v]) == Sum(s) + v - s[j]
  {
    var n := |s| - 1;
    if j < n {
      SumUpdate(s[..n], j, v);
      assert s[j := v][..n] == s[..n][j := v];
    } else {
      assert s[j := v][..n] == s[..n];
    }
  }

  /** The part of a buffer up to the terminating zero. */
  function CString(t: Text): (r: Text)
    ensures |r| <= |t|
  {
    if t == [] || t[0] == 0 then [] else [t[0]] + CString(t[1..])
  }

  /** The four bytes of a 32-bit word, most significant first. */
  function WordBytes(x: nat): (bs: seq<Byte>)
    ensures |bs| == 4
  {
    [x / 256 / 256 / 256 % 256, x / 256 / 256 % 256, x / 256 % 256, x % 256]
  }
}
