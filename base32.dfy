/** Base32 without padding, per section 6 of RFC 4648: the input bits, most
    significant first, are cut into 5-bit groups (the last one filled with
    zero bits) and each group becomes one symbol of A–Z2–7. The secret of a
    one-time-password enrolment is 21 random bytes in this encoding. */
module Base32 {
  import opened Wrappers

  newtype byte = x: int | 0 <= x < 256

  function Pow2(k: nat): (p: nat)
    ensures p >= 1
  {
    if k == 0 then 1 else 2 * Pow2(k - 1)
  }

  /** The `k` low bits of `x`, most significant first. */
  function BitsOf(x: nat, k: nat): (bs: seq<bool>)
    ensures |bs| == k
  {
    if k == 0 then [] else BitsOf(x / 2, k - 1) + [x % 2 == 1]
  }

  /** The number a bit string denotes, most significant bit first. */
  function ValueOf(bs: seq<bool>): (x: nat)
    ensures x < Pow2(|bs|)
  {
    if bs == [] then 0
    else 2 * ValueOf(bs[..|bs| - 1]) + (if bs[|bs| - 1] then 1 else 0)
  }

  lemma {:induction false} ValueOfBitsOf(x: nat, k: nat)
    requires x < Pow2(k)
    ensures ValueOf(BitsOf(x, k)) == x
  {
    if k > 0 {
      ValueOfBitsOf(x / 2, k - 1);
      var bs := BitsOf(x, k);
      assert bs[..k - 1] == BitsOf(x / 2, k - 1);
    }
  }

  lemma {:induction false} BitsOfValueOf(bs: seq<bool>)
    ensures BitsOf(ValueOf(bs), |bs|) == bs
  {
    if bs != [] {
      var n := |bs|;
      BitsOfValueOf(bs[..n - 1]);
      assert bs == bs[..n - 1] + [bs[n - 1]];
    }
  }

  /** A symbol of the RFC 4648 base32 alphabet. */
  predicate IsSymbol(c: char) {
    'A' <= c <= 'Z' || '2' <= c <= '7'
  }

  predicate IsBase32(s: string) {
    forall i :: 0 <= i < |s| ==> IsSymbol(s[i])
  }

  /** The symbol of a 5-bit value: 0–25 are `A`–`Z`, 26–31 are `2`–`7`. */
  function Symbol(v: nat): (c: char)
    requires v < 32
    ensures IsSymbol(c)
  {
    if v < 26 then ('A' as int + v) as char else ('2' as int + v - 26) as char
  }

  /** The 5-bit value of a symbol, inverse of `Symbol`. */
  function SymbolValue(c: char): (v: nat)
    requires IsSymbol(c)
    ensures v < 32 && Symbol(v) == c
  {
    if 'A' <= c <= 'Z' then c as int - 'A' as int else c as int - '2' as int + 26
  }

  lemma SymbolValueOfSymbol(v: nat)
    requires v < 32
    ensures SymbolValue(Symbol(v)) == v
  {
  }

  function BytesToBits(data: seq<byte>): (bits: seq<bool>)
    ensures |bits| == 8 * |data|
  {
    if data == [] then [] else BitsOf(data[0] as nat, 8) + BytesToBits(data[1..])
  }

  function BitsToBytes(bits: seq<bool>): (data: seq<byte>)
    requires |bits| % 8 == 0
    ensures |data| == |bits| / 8
  {
    if bits == [] then []
    else
      assert Pow2(8) == 256;
      [ValueOf(bits[..8]) as byte] + BitsToBytes(bits[8..])
  }

  function BitsToSymbols(bits: seq<bool>): (s: string)
    requires |bits| % 5 == 0
    ensures |s| == |bits| / 5 && IsBase32(s)
  {
    if bits == [] then []
    else
      assert Pow2(5) == 32;
      [Symbol(ValueOf(bits[..5]))] + BitsToSymbols(bits[5..])
  }

  function SymbolsToBits(s: string): (bits: seq<bool>)
    requires IsBase32(s)
    ensures |bits| == 5 * |s|
  {
    if s == [] then [] else BitsOf(SymbolValue(s[0]), 5) + SymbolsToBits(s[1..])
  }

  /** The number of zero bits that completes the last 5-bit group. */
  function Padding(n: nat): (p: nat)
    ensures p < 5 && (n + p) % 5 == 0
  {
    var q := n / 5;
    assert n == 5 * q + n % 5;
    if n % 5 == 0 then 0
    else
      assert n + (5 - n % 5) == 5 * (q + 1);
      5 - n % 5
  }

  function Zeros(k: nat): (z: seq<bool>)
    ensures |z| == k
  {
    seq(k, _ => false)
  }

  /** `base32::encode(RFC4648 { padding: false }, data)`. */
  function Encode(data: seq<byte>): (s: string)
    ensures |s| == (8 * |data| + 4) / 5
    ensures IsBase32(s)
  {
    var bits := BytesToBits(data);
    BitsToSymbols(bits + Zeros(Padding(|bits|)))
  }

  /** Decoding (`Secret::Encoded(s).to_bytes()`): `None` when a character is
      outside the alphabet, otherwise the whole bytes the symbols carry; the
      bits of an incomplete last byte are dropped. */
  function Decode(s: string): (r: Option<seq<byte>>)
    ensures r.Some? <==> IsBase32(s)
    ensures r.Some? ==> |r.value| == 5 * |s| / 8
  {
    if IsBase32(s) then
      var bits := SymbolsToBits(s);
      Some(BitsToBytes(bits[..|bits| / 8 * 8]))
    else None
  }

  lemma {:induction false} BitsToBytesToBits(data: seq<byte>)
    ensures BitsToBytes(BytesToBits(data)) == data
  {
    if data != [] {
      var bits := BytesToBits(data);
      var head := BitsOf(data[0] as nat, 8);
      assert bits[..8] == head;
      assert bits[8..] == BytesToBits(data[1..]);
      assert Pow2(8) == 256;
      ValueOfBitsOf(data[0] as nat, 8);
      BitsToBytesToBits(data[1..]);
    }
  }

  lemma {:induction false} SymbolsToBitsToSymbols(bits: seq<bool>)
    requires |bits| % 5 == 0
    ensures SymbolsToBits(BitsToSymbols(bits)) == bits
  {
    if bits != [] {
      var s := BitsToSymbols(bits);
      assert Pow2(5) == 32;
      var v := ValueOf(bits[..5]);
      assert s[0] == Symbol(v);
      assert s[1..] == BitsToSymbols(bits[5..]);
      SymbolValueOfSymbol(v);
      BitsOfValueOf(bits[..5]);
      SymbolsToBitsToSymbols(bits[5..]);
      assert bits == bits[..5] + bits[5..];
    }
  }

  /** `8k` is a whole number of bytes. */
  lemma EightTimes(k: nat)
    ensures (8 * k) % 8 == 0 && (8 * k) / 8 == k
  {
  }

  /** Padding `k` whole bytes to 5-bit groups adds fewer than 8 bits. */
  lemma PaddedWholeBytes(k: nat)
    ensures (8 * k + Padding(8 * k)) / 8 * 8 == 8 * k
  {
    assert (8 * k + Padding(8 * k)) / 8 == k;
  }

  /** Symbols carrying `k` whole bytes followed by fewer than 8 bits decode
      to those bytes. */
  lemma DecodeWholeBytes(s: string, bits: seq<bool>, k: nat)
    requires IsBase32(s) && |bits| == 8 * k
    requires |bits| <= |SymbolsToBits(s)| && SymbolsToBits(s)[..|bits|] == bits
    requires |SymbolsToBits(s)| / 8 * 8 == |bits|
    ensures |bits| % 8 == 0 && Decode(s) == Some(BitsToBytes(bits))
  {
    EightTimes(k);
  }

  /** Decoding undoes encoding: the secret's bytes come back unchanged. */
  lemma DecodeEncode(data: seq<byte>)
    ensures Decode(Encode(data)) == Some(data)
  {
    var bits := BytesToBits(data);
    var padded := bits + Zeros(Padding(|bits|));
    SymbolsToBitsToSymbols(padded);
    PaddedWholeBytes(|data|);
    DecodeWholeBytes(BitsToSymbols(padded), bits, |data|);
    BitsToBytesToBits(data);
  }

  /** Re-encoding the decoded secret reproduces the text it came from, so the
      secret a TOTP object reports is the one generated. */
  lemma EncodeDecodeEncode(data: seq<byte>)
    ensures Decode(Encode(data)).Some?
    ensures Encode(Decode(Encode(data)).value) == Encode(data)
  {
    DecodeEncode(data);
  }

  /** The bits of a run of 5-bit values, each most significant bit first. */
  function GroupBits(vs: seq<nat>): (bits: seq<bool>)
    ensures |bits| == 5 * |vs|
  {
    if vs == [] then [] else BitsOf(vs[0], 5) + GroupBits(vs[1..])
  }

  predicate AllFiveBit(vs: seq<nat>) {
    forall i :: 0 <= i < |vs| ==> vs[i] < 32
  }

  /** The symbols of a run of 5-bit values. */
  function Symbols(vs: seq<nat>): (s: string)
    requires AllFiveBit(vs)
    ensures |s| == |vs|
  {
    if vs == [] then [] else [Symbol(vs[0])] + Symbols(vs[1..])
  }

  /** Grouping the bits of 5-bit values into symbols gives each value's symbol. */
  lemma {:induction false} GroupBitsToSymbols(vs: seq<nat>)
    requires AllFiveBit(vs)
    ensures BitsToSymbols(GroupBits(vs)) == Symbols(vs)
  {
    if vs != [] {
      var bits := GroupBits(vs);
      assert bits[..5] == BitsOf(vs[0], 5);
      assert bits[5..] == GroupBits(vs[1..]);
      assert Pow2(5) == 32;
      ValueOfBitsOf(vs[0], 5);
      GroupBitsToSymbols(vs[1..]);
    }
  }

  /** `Encode` cuts `bits` into symbols when `bits` are the padded bits of `data`. */
  lemma EncodeOfBits(data: seq<byte>, bits: seq<bool>)
    requires |bits| % 5 == 0
    requires BytesToBits(data) + Zeros(Padding(8 * |data|)) == bits
    ensures Encode(data) == BitsToSymbols(bits)
  {
  }

  lemma EncodeOfGroups(data: seq<byte>, vs: seq<nat>)
    requires AllFiveBit(vs)
    requires BytesToBits(data) + Zeros(Padding(8 * |data|)) == GroupBits(vs)
    ensures Encode(data) == Symbols(vs)
  {
    EncodeOfBits(data, GroupBits(vs));
    GroupBitsToSymbols(vs);
  }

  lemma {:induction false} BytesToBitsAppend(a: seq<byte>, b: seq<byte>)
    ensures BytesToBits(a + b) == BytesToBits(a) + BytesToBits(b)
  {
    if a != [] {
      assert (a + b)[1..] == a[1..] + b;
      BytesToBitsAppend(a[1..], b);
    } else {
      assert a + b == b;
    }
  }

  lemma {:induction false} BitsToSymbolsAppend(x: seq<bool>, y: seq<bool>)
    requires |x| % 5 == 0 && |y| % 5 == 0
    ensures BitsToSymbols(x + y) == BitsToSymbols(x) + BitsToSymbols(y)
  {
    if x != [] {
      assert (x + y)[..5] == x[..5];
      assert (x + y)[5..] == x[5..] + y;
      BitsToSymbolsAppend(x[5..], y);
    } else {
      assert x + y == y;
    }
  }

  lemma PaddingShift(k: nat, n: nat)
    ensures Padding(40 * k + n) == Padding(n)
  {
    assert (40 * k + n) / 5 == 8 * k + n / 5;
  }

  /** Whole 40-bit groups (5 bytes, 8 symbols) encode independently of what
      follows them. */
  lemma EncodeBlocks(a: seq<byte>, b: seq<byte>)
    requires |a| % 5 == 0
    ensures Encode(a + b) == Encode(a) + Encode(b)
  {
    var k := |a| / 5;
    var x := BytesToBits(a);
    var pb := Padding(8 * |b|);
    var y := BytesToBits(b) + Zeros(pb);
    assert |a| == 5 * k;
    assert |x| == 40 * k;
    PaddingShift(k, 8 * |b|);
    PaddingShift(k, 0);
    BytesToBitsAppend(a, b);
    assert x + Zeros(0) == x;
    EncodeOfBits(a + b, x + y);
    EncodeOfBits(a, x);
    EncodeOfBits(b, y);
    BitsToSymbolsAppend(x, y);
  }

  /** The first test vector of section 10 of RFC 4648: "f" encodes to "MY"
      (with the `=` padding removed). */
  lemma Rfc4648Vector()
    ensures Encode([0x66]) == "MY"
  {
    assert BytesToBits([0x66]) + Zeros(2) == GroupBits([12, 24]);
    EncodeOfGroups([0x66], [12, 24]);
  }

  /** 21 random bytes (168 bits) encode to 34 symbols. */
  lemma SecretLength(data: seq<byte>)
    requires |data| == 21
    ensures |Encode(data)| == 34
  {
  }
}
