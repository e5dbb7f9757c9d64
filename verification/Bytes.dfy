/** Octets, fixed-width unsigned integers and their big-endian encodings. */
module Bytes {
  type Byte = b: int | 0 <= b < 256
  type U32 = n: int | 0 <= n < 0x1_0000_0000
  type U64 = n: int | 0 <= n < 0x1_0000_0000_0000_0000

  datatype Option<+T> = None | Some(value: T)

  /** `a.wrapping_add(b)` on 32 bits. */
  function WrappingAdd(a: U32, b: U32): (r: U32)
    ensures r == a <==> b == 0
  {
    (a + b) % 0x1_0000_0000
  }

  function Pow256(n: nat): (p: nat)
    ensures p > 0
  {
    if n == 0 then 1 else 256 * Pow256(n - 1)
  }

  /** The value of a big-endian byte string. */
  function FromBe(s: seq<Byte>): (n: nat)
    ensures n < Pow256(|s|)
  {
    if s == [] then 0 else 256 * FromBe(s[..|s| - 1]) + s[|s| - 1]
  }

  /** The low `width` bytes of `n`, most significant first. */
  function ToBe(n: nat, width: nat): (s: seq<Byte>)
    ensures |s| == width
  {
    if width == 0 then [] else ToBe(n / 256, width - 1) + [n % 256]
  }

  lemma {:induction false} FromToBe(n: nat, width: nat)
    requires n < Pow256(width)
    ensures FromBe(ToBe(n, width)) == n
  {
    if width > 0 {
      FromToBe(n / 256, width - 1);
      assert ToBe(n, width)[..width - 1] == ToBe(n / 256, width - 1);
    }
  }

  lemma {:induction false} ToFromBe(s: seq<Byte>)
    ensures ToBe(FromBe(s), |s|) == s
  {
    if s != [] {
      ToFromBe(s[..|s| - 1]);
    }
  }

  /** The most significant octet comes first. */
  lemma WordOctets(a: Byte, b: Byte, c: Byte, d: Byte)
    ensures ToBe(0x100_0000 * a + 0x1_0000 * b + 0x100 * c + d, 4) == [a, b, c, d]
    ensures FromBe([a, b, c, d]) == 0x100_0000 * a + 0x1_0000 * b + 0x100 * c + d
  {
    var n := 0x100_0000 * a + 0x1_0000 * b + 0x100 * c + d;
    assert n / 256 == 0x1_0000 * a + 0x100 * b + c && n % 256 == d;
    assert n / 256 / 256 == 0x100 * a + b && n / 256 % 256 == c;
    assert n / 256 / 256 / 256 == a && n / 256 / 256 % 256 == b;
    assert ToBe(n, 4) == ToBe(n / 256, 3) + [d] && ToBe(n / 256, 3) == ToBe(n / 256 / 256, 2) + [c];
    assert ToBe(n / 256 / 256, 2) == ToBe(a, 1) + [b] && ToBe(a, 1) == ToBe(0, 0) + [a];
    FromToBe(n, 4);
    assert Pow256(4) == 0x1_0000_0000;
  }

  lemma PowersOf256()
    ensures Pow256(4) == 0x1_0000_0000
    ensures Pow256(8) == 0x1_0000_0000_0000_0000
  {
  }

  /** The 32-bit word at `at`, as `u32::from_be_bytes` reads it. */
  function U32At(buf: seq<Byte>, at: nat): (n: U32)
    requires at + 4 <= |buf|
  {
    PowersOf256();
    FromBe(buf[at..at + 4])
  }

  function U64At(buf: seq<Byte>, at: nat): (n: U64)
    requires at + 8 <= |buf|
  {
    PowersOf256();
    FromBe(buf[at..at + 8])
  }

  /** `buf` with the bytes from `at` on replaced by `word`. */
  function Overwrite(buf: seq<Byte>, at: nat, word: seq<Byte>): (r: seq<Byte>)
    requires at + |word| <= |buf|
    ensures |r| == |buf|
  {
    buf[..at] + word + buf[at + |word|..]
  }

  lemma SliceOfSlice(s: seq<Byte>, from: nat, to: nat, a: nat, b: nat)
    requires a <= b && from + b <= to <= |s|
    ensures s[from..to][a..b] == s[from + a..from + b]
  {
    var t := s[from..to];
    assert forall i | a <= i < b :: t[i] == s[from + i];
  }

  lemma Assoc<T>(a: seq<T>, b: seq<T>, c: seq<T>)
    ensures a + (b + c) == a + b + c
  {
  }

  lemma Around<T>(s: seq<T>, i: nat)
    requires i < |s|
    ensures s == s[..i] + [s[i]] + s[i + 1..]
  {
  }

  lemma Pieces(buf: seq<Byte>, a: seq<Byte>, b: seq<Byte>, c: seq<Byte>)
    requires buf == a + b + c
    ensures |a| + |b| <= |buf|
    ensures buf[..|a|] == a && buf[|a|..|a| + |b|] == b && buf[|a| + |b|..] == c
  {
  }

  /** The concatenation of a sequence of byte strings, e.g. of TCP chunks. */
  function Concat(chunks: seq<seq<Byte>>): (r: seq<Byte>)
  {
    if chunks == [] then [] else chunks[0] + Concat(chunks[1..])
  }

  lemma {:induction false} ConcatAppend(chunks: seq<seq<Byte>>, last: seq<Byte>)
    ensures Concat(chunks + [last]) == Concat(chunks) + last
  {
    if chunks == [] {
      assert chunks + [last] == [last];
      assert Concat([last]) == last + Concat([last][1..]);
    } else {
      ConcatAppend(chunks[1..], last);
      assert (chunks + [last])[1..] == chunks[1..] + [last];
    }
  }
}
