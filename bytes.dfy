/**
 * The byte-order helpers of proto_cpp/include/bytes.h.
 *
 * The C++ templates are written against `std::endian::native`; both targets of the
 * project (the STM32 and the PC) are little-endian, so `std::bit_cast` of an unsigned
 * integer yields its bytes least significant first, and the big-endian helpers
 * reverse that array.  An unsigned integer of `width` bytes is a `nat` below
 * `Pow256(width)`.
 */
module Bytes {
  import opened Arith

  /** Dropping nothing, or appending nothing, leaves a sequence as it was. */
  lemma NoChange<T>(x: seq<T>)
    ensures x[0..] == x && x[..|x|] == x && x + [] == x && [] + x == x
  {
  }

  /** `p + c` is `p`, the front of `c`, then the last element of `c`. */
  lemma SnocAfter<T>(p: seq<T>, c: seq<T>)
    requires c != []
    ensures p + c[..|c| - 1] + [c[|c| - 1]] == p + c
  {
    assert c[..|c| - 1] + [c[|c| - 1]] == c;
  }

  /** The rest of `s` from `i` without its last element is `c` without its last element. */
  lemma TrimLast<T>(s: seq<T>, i: nat, c: seq<T>)
    requires i <= |s| && s[i..] == c && c != []
    ensures s[i..|s| - 1] == c[..|c| - 1]
  {
    assert s[i..|s| - 1] == s[i..][..|c| - 1];
  }

  /** `x + t` is the first element of `x`, then the rest of `x`, then `t`. */
  lemma Uncons<T>(x: seq<T>, t: seq<T>)
    requires x != []
    ensures x + t == [x[0]] + (x[1..] + t)
  {
    assert x == [x[0]] + x[1..];
  }

  /** Where the rest of `s` from `i` is `u + rest`, `u` sits at `i` and `rest` follows it. */
  lemma SplitAt<T>(s: seq<T>, i: nat, u: seq<T>, rest: seq<T>)
    requires i <= |s| && s[i..] == u + rest
    ensures i + |u| <= |s| && s[i..i + |u|] == u && s[i + |u|..] == rest
  {
    assert s[i..][..|u|] == u;
    assert s[i..][|u|..] == rest;
  }

  lemma SplitFirst<T>(s: seq<T>, i: nat, u: seq<T>, t: seq<T>, rest: seq<T>)
    requires i <= |s| && s[i..] == u + t + rest
    ensures i + |u| <= |s| && s[i..i + |u|] == u && s[i + |u|..] == t + rest
  {
    assert u + t + rest == u + (t + rest);
    SplitAt(s, i, u, t + rest);
  }

  /** Cutting `x` around element `n`, between a first and a last element. */
  lemma Regroup<T>(b: T, x: seq<T>, n: nat, e: T)
    requires n < |x|
    ensures [b] + x[..n] + [x[n]] + (x[n + 1..] + [e]) == [b] + x + [e]
  {
    assert x[..n] + [x[n]] + x[n + 1..] == x;
  }

  /** What follows the first element of `[b] + s + [e] + rest`. */
  lemma DropFirst<T>(x: seq<T>, b: T, s: seq<T>, e: T, rest: seq<T>)
    requires x == [b] + s + [e] + rest
    ensures x[1..] == s + [e] + rest
  {
  }

  /** Where `s[k..]` starts with `a`, the rest of it follows `a`. */
  lemma Ahead<T>(s: seq<T>, k: nat, a: seq<T>, r: seq<T>, e: T, post: seq<T>)
    requires k <= |s| && s[k..] == a + r + [e] + post && a != []
    ensures s[k..] == a + (r + [e] + post)
    ensures k + |a| < |s| && s[k] == a[0] && s[k + |a|..] == r + [e] + post
    ensures s[k..][..2] == s[k..k + 2]
  {
    assert a + r + [e] + post == a + (r + [e] + post);
  }

  lemma Assoc<T>(a: seq<T>, b: seq<T>, c: seq<T>)
    ensures (a + b) + c == a + (b + c)
  {
  }

  /** A non-empty sequence is its first element followed by the rest. */
  lemma Cons<T>(x: seq<T>)
    requires x != []
    ensures [x[0]] + x[1..] == x
  {
  }

  /** One more element of `s` extends its prefix of length `i` by `s[i]`. */
  lemma TakeSnoc<T>(s: seq<T>, i: nat)
    requires i < |s|
    ensures s[..i + 1] == s[..i] + [s[i]]
  {
  }

  /** The last element of `a + c` is that of `c`. */
  lemma LastOfAppend<T>(a: seq<T>, c: seq<T>)
    requires c != []
    ensures (a + c)[|a + c| - 1] == c[|c| - 1]
  {
  }

  /** Four pieces appended one by one are the four appended together. */
  lemma Join4<T>(s0: seq<T>, a: seq<T>, b: seq<T>, c: seq<T>, d: seq<T>)
    ensures s0 + a + b + c + d == s0 + (a + b + c + d)
  {
  }

  /** Between a first and a last element lies the middle, here made of two parts. */
  lemma Interior<T>(b: T, x: seq<T>, c: seq<T>, e: T)
    ensures var w := [b] + x + c + [e];
      && |w| == |x| + |c| + 2 && w[0] == b && w[|w| - 1] == e && w[1..|w| - 1] == x + c
  {
    var w := [b] + x + c + [e];
    assert w == [b] + (x + c) + [e];
  }

  /** Between a first and a last element lies the middle. */
  lemma Enclosed<T>(b: T, x: seq<T>, e: T)
    ensures var w := [b] + x + [e];
      && |w| == |x| + 2 && w[0] == b && w[|w| - 1] == e && w[1..|w| - 1] == x
  {
  }

  /** A non-empty sequence is its front followed by its last element. */
  lemma Snoc<T>(x: seq<T>)
    requires x != []
    ensures x[..|x| - 1] + [x[|x| - 1]] == x
  {
  }

  /** `std::uint8_t` / Rust `u8`. */
  type byte = b: int | 0 <= b < 256

  function Pow256(k: nat): (r: nat)
    ensures r >= 1
  {
    if k == 0 then 1 else 256 * Pow256(k - 1)
  }

  /** `s` backwards; the model of `std::reverse` on a byte array. */
  function Reverse<T>(s: seq<T>): (r: seq<T>)
    ensures |r| == |s|
    ensures forall i :: 0 <= i < |s| ==> r[i] == s[|s| - 1 - i]
  {
    if s == [] then [] else Reverse(s[1..]) + [s[0]]
  }

  lemma ReverseReverse<T>(s: seq<T>)
    ensures Reverse(Reverse(s)) == s
  {
    var r := Reverse(Reverse(s));
    assert |r| == |s|;
    forall i | 0 <= i < |s| ensures r[i] == s[i] {
    }
  }

  lemma DivBound(n: nat, p: nat)
    requires p > 0 && n < 256 * p
    ensures n / 256 < p
  {
    DivUnique(n, 256, n / 256, n % 256);
  }

  /**
   * `std::bit_cast<std::array<std::uint8_t, width>>(n)` on a little-endian target.
   */
  function NativeBytes(n: nat, width: nat): (r: seq<byte>)
    requires n < Pow256(width)
    ensures |r| == width
  {
    if width == 0 then []
    else
      DivBound(n, Pow256(width - 1));
      [n % 256] + NativeBytes(n / 256, width - 1)
  }

  /** `std::bit_cast<T>(arr)` on a little-endian target. */
  function FromNative(s: seq<byte>): (n: nat)
    ensures n < Pow256(|s|)
  {
    if s == [] then 0
    else
      var rest := FromNative(s[1..]);
      assert s[0] + 256 * rest < 256 * Pow256(|s| - 1) by {
        assert rest <= Pow256(|s| - 1) - 1;
        assert 256 * rest <= 256 * Pow256(|s| - 1) - 256;
      }
      s[0] + 256 * rest
  }

  /** `to_be_bytes`: the native array, reversed. */
  function ToBeBytes(n: nat, width: nat): (r: seq<byte>)
    requires n < Pow256(width)
  {
    Reverse(NativeBytes(n, width))
  }

  /** `to_le_bytes`: the native array as it is. */
  function ToLeBytes(n: nat, width: nat): (r: seq<byte>)
    requires n < Pow256(width)
  {
    NativeBytes(n, width)
  }

  /** `from_be_bytes`: reverse, then reinterpret. */
  function FromBeBytes(s: seq<byte>): (n: nat)
  {
    FromNative(Reverse(s))
  }

  /** `from_le_bytes`: reinterpret as it is. */
  function FromLeBytes(s: seq<byte>): (n: nat)
  {
    FromNative(s)
  }

  /** Byte `i` of the native array is digit `i` of `n` in base 256. */
  lemma {:induction false} NativeBytesAt(n: nat, width: nat, i: nat)
    requires n < Pow256(width) && i < width
    ensures NativeBytes(n, width)[i] == (n / Pow256(i)) % 256
  {
    if i > 0 {
      DivBound(n, Pow256(width - 1));
      NativeBytesAt(n / 256, width - 1, i - 1);
      DivDiv(n, 256, Pow256(i - 1));
    }
  }

  /** `to_be_bytes(n)` has `sizeof(T)` bytes, the most significant first. */
  lemma ToBeBytesAt(n: nat, width: nat, i: nat)
    requires n < Pow256(width) && i < width
    ensures |ToBeBytes(n, width)| == width
    ensures ToBeBytes(n, width)[i] == (n / Pow256(width - 1 - i)) % 256
  {
    NativeBytesAt(n, width, width - 1 - i);
  }

  /** `to_le_bytes(n)` has `sizeof(T)` bytes, the least significant first. */
  lemma ToLeBytesAt(n: nat, width: nat, i: nat)
    requires n < Pow256(width) && i < width
    ensures |ToLeBytes(n, width)| == width
    ensures ToLeBytes(n, width)[i] == (n / Pow256(i)) % 256
  {
    NativeBytesAt(n, width, i);
  }

  /** The two byte orders are each other's reverse. */
  lemma LeIsReversedBe(n: nat, width: nat)
    requires n < Pow256(width)
    ensures ToLeBytes(n, width) == Reverse(ToBeBytes(n, width))
  {
    ReverseReverse(NativeBytes(n, width));
  }

  lemma {:induction false} NativeRoundTrip(n: nat, width: nat)
    requires n < Pow256(width)
    ensures FromNative(NativeBytes(n, width)) == n
  {
    if width > 0 {
      DivBound(n, Pow256(width - 1));
      NativeRoundTrip(n / 256, width - 1);
      assert NativeBytes(n, width)[1..] == NativeBytes(n / 256, width - 1);
    }
  }

  lemma {:induction false} NativeOfFromNative(s: seq<byte>)
    ensures NativeBytes(FromNative(s), |s|) == s
  {
    if s != [] {
      var rest := FromNative(s[1..]);
      NativeOfFromNative(s[1..]);
      DivUnique(s[0] + 256 * rest, 256, rest, s[0]);
    }
  }

  /** `from_be_bytes(to_be_bytes(n)) == n`. */
  lemma BeRoundTrip(n: nat, width: nat)
    requires n < Pow256(width)
    ensures FromBeBytes(ToBeBytes(n, width)) == n
  {
    ReverseReverse(NativeBytes(n, width));
    NativeRoundTrip(n, width);
  }

  /** `from_le_bytes(to_le_bytes(n)) == n`. */
  lemma LeRoundTrip(n: nat, width: nat)
    requires n < Pow256(width)
    ensures FromLeBytes(ToLeBytes(n, width)) == n
  {
    NativeRoundTrip(n, width);
  }

  /** Every byte array is the big-endian image of the number it denotes. */
  lemma BeBytesRoundTrip(s: seq<byte>)
    ensures FromBeBytes(s) < Pow256(|s|)
    ensures ToBeBytes(FromBeBytes(s), |s|) == s
  {
    NativeOfFromNative(Reverse(s));
    ReverseReverse(s);
  }

  /** For a `uint8_t` both orders are the byte itself. */
  lemma SingleByte(b: byte)
    ensures Pow256(1) == 256
    ensures ToBeBytes(b, 1) == [b] && ToLeBytes(b, 1) == [b]
    ensures FromBeBytes([b]) == b && FromLeBytes([b]) == b
  {
    assert NativeBytes(b, 1) == [b % 256] + NativeBytes(b / 256, 0);
  }
}
