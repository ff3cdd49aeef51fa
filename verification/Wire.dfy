/** XDR (RFC 4506) as this server reads and writes it, on plain byte sequences: the decoders of
    src/NFS3Prog.cpp as functions that either fail or return a value and the unread bytes, and the
    encodings of RFC 1813 they are meant for. */
module Wire {
  import opened Nodes

  type U32 = n: int | 0 <= n < 0x1_0000_0000
  type U64 = n: int | 0 <= n < 0x1_0000_0000_0000_0000
  type Bytes = seq<Byte>

  /** What a 32-bit length can count. */
  type Short = d: seq<Byte> | |d| < 0x1_0000_0000 witness []

  /** The outcome of a decoder: the thrown exception, or a value and what is left to read. */
  datatype Parsed<+T> = Fail | Got(value: T, rest: Bytes) {
    predicate IsFailure() { Fail? }
    function PropagateFailure<U>(): Parsed<U>
      requires Fail?
    { Fail }
    function Extract(): (T, Bytes)
      requires Got?
    { (value, rest) }
  }

  // ---------------------------------------------------------------- integers

  /** The value of bytes with the most significant first. */
  function BigValue(s: Bytes): nat {
    if s == [] then 0 else BigValue(s[..|s| - 1]) * 0x100 + s[|s| - 1]
  }

  /** The value of bytes with the least significant first, as a variable lies in memory. */
  function LittleValue(s: Bytes): nat {
    if s == [] then 0 else s[0] + 0x100 * LittleValue(s[1..])
  }

  /** k bytes, most significant first. */
  function BigEndian(n: nat, k: nat): (s: Bytes)
    ensures |s| == k
  {
    if k == 0 then [] else BigEndian(n / 0x100, k - 1) + [n % 0x100]
  }

  function Power256(k: nat): nat {
    if k == 0 then 1 else 0x100 * Power256(k - 1)
  }

  lemma {:induction false} BigEndianRoundTrip(n: nat, k: nat)
    requires n < Power256(k)
    ensures BigValue(BigEndian(n, k)) == n
  {
    if k > 0 {
      BigEndianRoundTrip(n / 0x100, k - 1);
      assert BigEndian(n, k)[..k - 1] == BigEndian(n / 0x100, k - 1);
    }
  }

  lemma {:induction false} BigValueBound(s: Bytes)
    ensures BigValue(s) < Power256(|s|)
  {
    if s != [] {
      BigValueBound(s[..|s| - 1]);
    }
  }

  lemma Powers()
    ensures Power256(4) == 0x1_0000_0000 && Power256(8) == 0x1_0000_0000_0000_0000
  {
    assert Power256(2) == 0x1_0000;
    assert Power256(4) == 0x1_0000_0000;
    assert Power256(6) == 0x1_0000_0000_0000;
  }

  function Reverse(s: Bytes): (r: Bytes)
    ensures |r| == |s| && forall i :: 0 <= i < |s| ==> r[i] == s[|s| - 1 - i]
  {
    if s == [] then [] else [s[|s| - 1]] + Reverse(s[..|s| - 1])
  }

  /** Reversing the bytes turns network order into memory order. */
  lemma {:induction false} ReversedValue(s: Bytes)
    ensures LittleValue(Reverse(s)) == BigValue(s)
  {
    if s != [] {
      ReversedValue(s[..|s| - 1]);
      assert Reverse(s)[1..] == Reverse(s[..|s| - 1]);
    }
  }

  lemma {:induction false} LittleValueBound(s: Bytes)
    ensures LittleValue(s) < Power256(|s|)
  {
    if s != [] {
      LittleValueBound(s[1..]);
    }
  }

  /** k bytes, least significant first. */
  function LittleEndian(n: nat, k: nat): (s: Bytes)
    ensures |s| == k
  {
    if k == 0 then [] else [n % 0x100] + LittleEndian(n / 0x100, k - 1)
  }

  /** Reversing the bytes turns memory order into network order. */
  lemma {:induction false} ReversedEncoding(n: nat, k: nat)
    ensures Reverse(LittleEndian(n, k)) == BigEndian(n, k)
  {
    if k > 0 {
      ReversedEncoding(n / 0x100, k - 1);
      var t := LittleEndian(n / 0x100, k - 1);
      assert LittleEndian(n, k) == [n % 0x100] + t;
      forall i | 0 <= i < k
        ensures Reverse([n % 0x100] + t)[i] == (Reverse(t) + [n % 0x100])[i]
      {
      }
      assert Reverse([n % 0x100] + t) == Reverse(t) + [n % 0x100];
    }
  }

  function EncU32(n: U32): (s: Bytes)
    ensures |s| == 4
  {
    BigEndian(n, 4)
  }

  function EncU64(n: U64): (s: Bytes)
    ensures |s| == 8
  {
    BigEndian(n, 8)
  }

  function DecU32(s: Bytes): (p: Parsed<U32>)
    ensures p.Got? <==> |s| >= 4
    ensures p.Got? ==> p.rest == s[4..]
  {
    if |s| < 4 then Fail
    else
      Powers();
      BigValueBound(s[..4]);
      Got(BigValue(s[..4]), s[4..])
  }

  function DecU64(s: Bytes): (p: Parsed<U64>)
    ensures p.Got? <==> |s| >= 8
    ensures p.Got? ==> p.rest == s[8..]
  {
    if |s| < 8 then Fail
    else
      Powers();
      BigValueBound(s[..8]);
      Got(BigValue(s[..8]), s[8..])
  }

  lemma U32RoundTrip(n: U32, rest: Bytes)
    ensures DecU32(EncU32(n) + rest) == Got(n, rest)
  {
    Powers();
    BigEndianRoundTrip(n, 4);
    assert (EncU32(n) + rest)[..4] == EncU32(n);
    assert (EncU32(n) + rest)[4..] == rest;
  }

  lemma U64RoundTrip(n: U64, rest: Bytes)
    ensures DecU64(EncU64(n) + rest) == Got(n, rest)
  {
    Powers();
    BigEndianRoundTrip(n, 8);
    assert (EncU64(n) + rest)[..8] == EncU64(n);
    assert (EncU64(n) + rest)[8..] == rest;
  }

  lemma U32Stable(s: Bytes, t: Bytes)
    requires DecU32(s).Got?
    ensures DecU32(s + t) == Got(DecU32(s).value, DecU32(s).rest + t)
  {
    assert (s + t)[..4] == s[..4];
    assert (s + t)[4..] == s[4..] + t;
  }

  lemma U64Stable(s: Bytes, t: Bytes)
    requires DecU64(s).Got?
    ensures DecU64(s + t) == Got(DecU64(s).value, DecU64(s).rest + t)
  {
    assert (s + t)[..8] == s[..8];
    assert (s + t)[8..] == s[8..] + t;
  }

  // ---------------------------------------------------------------- bool and opaque

  function EncBool(b: bool): (s: Bytes)
    ensures |s| == 4
  {
    EncU32(if b then 1 else 0)
  }

  /** Anything but 1 reads as false. */
  function DecBool(s: Bytes): (p: Parsed<bool>)
    ensures p.Got? <==> |s| >= 4
    ensures p.Got? ==> p.rest == s[4..]
  {
    var (n, r) :- DecU32(s);
    Got(n == 1, r)
  }

  /** The fill bytes after n bytes of data. */
  function Padding(n: nat): (k: nat)
    ensures k < 4 && (n + k) % 4 == 0
  {
    (4 - n % 4) % 4
  }

  function Zeros(k: nat): (s: Bytes)
    ensures |s| == k
  {
    seq(k, _ => 0)
  }

  function EncOpaque(d: Short): (s: Bytes)
    ensures |s| == 4 + |d| + Padding(|d|)
  {
    EncU32(|d|) + d + Zeros(Padding(|d|))
  }

  function DecOpaque(s: Bytes): (p: Parsed<Short>)
    ensures p.Got? ==> |p.rest| < |s| == |EncOpaque(p.value)| + |p.rest|
  {
    var (len, r) :- DecU32(s);
    if |r| < len then Fail
    else if |r| - len < Padding(len) then Fail
    else Got(r[..len], r[len + Padding(len)..])
  }

  /** The length, the data and the fill bytes, one read behind the other. */
  lemma OpaqueParts(s: Bytes)
    ensures match DecU32(s)
            case Fail => DecOpaque(s) == Fail
            case Got(len, r) =>
              DecOpaque(s) ==
              if len <= |r| && Padding(len) <= |r[len..]| then Got(r[..len], r[len..][Padding(len)..]) else Fail
  {
  }

  lemma OpaqueRoundTrip(d: Short, rest: Bytes)
    ensures DecOpaque(EncOpaque(d) + rest) == Got(d, rest)
  {
    var z := Zeros(Padding(|d|));
    U32RoundTrip(|d|, d + z + rest);
    assert EncOpaque(d) + rest == EncU32(|d|) + (d + z + rest);
    assert (d + z + rest)[..|d|] == d;
    assert (d + z + rest)[|d| + |z|..] == rest;
  }

  lemma OpaqueStable(s: Bytes, t: Bytes)
    requires DecOpaque(s).Got?
    ensures DecOpaque(s + t) == Got(DecOpaque(s).value, DecOpaque(s).rest + t)
  {
    U32Stable(s, t);
    var (len, r) := DecU32(s).Extract();
    assert (r + t)[..len] == r[..len];
    assert (r + t)[len + Padding(len)..] == r[len + Padding(len)..] + t;
  }

  lemma Assoc(a: Bytes, b: Bytes, c: Bytes)
    ensures (a + b) + c == a + (b + c)
  {
  }

  /** A stable decoder that reads back an encoding fails on every strict prefix of it. */
  lemma PrefixFails<T>(dec: Bytes -> Parsed<T>, e: Bytes, v: T, k: nat)
    requires k < |e| && dec(e) == Got(v, [])
    requires dec(e[..k]).Got? ==> dec(e[..k] + e[k..]) == Got(dec(e[..k]).value, dec(e[..k]).rest + e[k..])
    ensures dec(e[..k]) == Fail
  {
    assert e[..k] + e[k..] == e;
    assert e[k..] != [];
  }
}
