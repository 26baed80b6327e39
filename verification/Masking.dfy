/** Unmasking of WebSocket payloads (example/websocket.go:201-236): a word-at-a-time loop
    against the octet-wise definition of section 5.3 of RFC 6455. */
module Masking {
  import opened Basics

  /** A 4-octet masking key. */
  type Key = k: seq<Byte> | |k| == 4 witness [0, 0, 0, 0]

  function Xor(a: Byte, k: Byte): Byte { a ^ k }

  /** Section 5.3 of RFC 6455: octet `i` of the result is octet `i` of the data XOR octet
      `i MOD 4` of the key. */
  function Masked(data: seq<Byte>, key: Key): (r: seq<Byte>)
    ensures |r| == |data|
  {
    if data == [] then []
    else
      var n := |data| - 1;
      Masked(data[..n], key) + [Xor(data[n], key[n % 4])]
  }

  lemma {:induction false} MaskedAt(data: seq<Byte>, key: Key, i: nat)
    requires i < |data|
    ensures Masked(data, key)[i] == Xor(data[i], key[i % 4])
  {
    if i < |data| - 1 {
      MaskedAt(data[..|data| - 1], key, i);
    }
  }

  lemma XorTwice(a: Byte, k: Byte)
    ensures Xor(Xor(a, k), k) == a
  {
  }

  /** Masking undoes itself. */
  lemma {:induction false} MaskedTwice(data: seq<Byte>, key: Key)
    ensures Masked(Masked(data, key), key) == data
  {
    if data != [] {
      var n := |data| - 1;
      MaskedTwice(data[..n], key);
      XorTwice(data[n], key[n % 4]);
      assert Masked(data, key)[..n] == Masked(data[..n], key);
    }
  }

  // ----- Little-endian words -----

  function Word(b0: Byte, b1: Byte, b2: Byte, b3: Byte, b4: Byte, b5: Byte, b6: Byte, b7: Byte): bv64 {
    (b0 as bv64) | ((b1 as bv64) << 8) | ((b2 as bv64) << 16) | ((b3 as bv64) << 24)
    | ((b4 as bv64) << 32) | ((b5 as bv64) << 40) | ((b6 as bv64) << 48) | ((b7 as bv64) << 56)
  }

  /** Octet `8 * n` to `8 * n + 7` of a word, for a shift of `8 * n`. */
  function Octet(v: bv64, shift: bv64): Byte
    requires shift < 64
  {
    ((v >> shift) & 0xff) as Byte
  }

  lemma OctetsOfWord(b0: Byte, b1: Byte, b2: Byte, b3: Byte, b4: Byte, b5: Byte, b6: Byte, b7: Byte)
    ensures var v := Word(b0, b1, b2, b3, b4, b5, b6, b7);
            && Octet(v, 0) == b0 && Octet(v, 8) == b1 && Octet(v, 16) == b2 && Octet(v, 24) == b3
            && Octet(v, 32) == b4 && Octet(v, 40) == b5 && Octet(v, 48) == b6 && Octet(v, 56) == b7
  {
  }

  function OctetAt(v: bv64, n: nat): Byte
    requires n < 8
  {
    if n == 0 then Octet(v, 0) else if n == 1 then Octet(v, 8) else if n == 2 then Octet(v, 16)
    else if n == 3 then Octet(v, 24) else if n == 4 then Octet(v, 32) else if n == 5 then Octet(v, 40)
    else if n == 6 then Octet(v, 48) else Octet(v, 56)
  }

  /** `key64` holds the key twice, least significant octet first. */
  ghost predicate Doubles(key64: bv64, key: Key) {
    forall n: nat :: n < 8 ==> OctetAt(key64, n) == key[n % 4]
  }

  lemma DoubledWord(k0: Byte, k1: Byte, k2: Byte, k3: Byte)
    ensures var m := ((k0 as bv32) | ((k1 as bv32) << 8) | ((k2 as bv32) << 16) | ((k3 as bv32) << 24)) as bv64;
            (m << 32) + m == Word(k0, k1, k2, k3, k0, k1, k2, k3)
  {
  }

  lemma DoubledOctets(k0: Byte, k1: Byte, k2: Byte, k3: Byte, w: bv64)
    requires w == Word(k0, k1, k2, k3, k0, k1, k2, k3)
    ensures OctetAt(w, 0) == OctetAt(w, 4) == k0 && OctetAt(w, 1) == OctetAt(w, 5) == k1
    ensures OctetAt(w, 2) == OctetAt(w, 6) == k2 && OctetAt(w, 3) == OctetAt(w, 7) == k3
  {
    OctetsOfWord(k0, k1, k2, k3, k0, k1, k2, k3);
  }

  method DoubleWord(k0: Byte, k1: Byte, k2: Byte, k3: Byte) returns (key64: bv64)
    ensures key64 == Word(k0, k1, k2, k3, k0, k1, k2, k3)
  {
    var maskKey := ((k0 as bv32) | ((k1 as bv32) << 8) | ((k2 as bv32) << 16) | ((k3 as bv32) << 24)) as bv64;
    key64 := (maskKey << 32) + maskKey;
    DoubledWord(k0, k1, k2, k3);
  }

  /** The doubled key of the source. */
  method DoubleKey(key: Key) returns (key64: bv64)
    ensures Doubles(key64, key)
  {
    key64 := DoubleWord(key[0], key[1], key[2], key[3]);
    DoubledOctets(key[0], key[1], key[2], key[3], key64);
    forall n: nat | n < 8 ensures OctetAt(key64, n) == key[n % 4] {
      assert n == 0 || n == 1 || n == 2 || n == 3 || n == 4 || n == 5 || n == 6 || n == 7;
    }
  }

  // XOR of a word with another one, octet by octet.

  lemma OctetXor(v: bv64, w: bv64)
    ensures Octet(v ^ w, 0) == Xor(Octet(v, 0), Octet(w, 0))
    ensures Octet(v ^ w, 8) == Xor(Octet(v, 8), Octet(w, 8))
    ensures Octet(v ^ w, 16) == Xor(Octet(v, 16), Octet(w, 16))
    ensures Octet(v ^ w, 24) == Xor(Octet(v, 24), Octet(w, 24))
    ensures Octet(v ^ w, 32) == Xor(Octet(v, 32), Octet(w, 32))
    ensures Octet(v ^ w, 40) == Xor(Octet(v, 40), Octet(w, 40))
    ensures Octet(v ^ w, 48) == Xor(Octet(v, 48), Octet(w, 48))
    ensures Octet(v ^ w, 56) == Xor(Octet(v, 56), Octet(w, 56))
  {
  }

  lemma MaskedEight(b: seq<Byte>, key: Key)
    requires |b| == 8
    ensures Masked(b, key) == [Xor(b[0], key[0]), Xor(b[1], key[1]), Xor(b[2], key[2]), Xor(b[3], key[3]),
                               Xor(b[4], key[0]), Xor(b[5], key[1]), Xor(b[6], key[2]), Xor(b[7], key[3])]
  {
    forall i | 0 <= i < 8 ensures Masked(b, key)[i] == Xor(b[i], key[i % 4]) {
      MaskedAt(b, key, i);
    }
  }

  /** Eight octets read as a word, XORed with `key64`, and taken apart again. */
  method XorOctets(b0: Byte, b1: Byte, b2: Byte, b3: Byte, b4: Byte, b5: Byte, b6: Byte, b7: Byte, key64: bv64)
    returns (r: seq<Byte>)
    ensures r == [Xor(b0, OctetAt(key64, 0)), Xor(b1, OctetAt(key64, 1)), Xor(b2, OctetAt(key64, 2)), Xor(b3, OctetAt(key64, 3)),
                  Xor(b4, OctetAt(key64, 4)), Xor(b5, OctetAt(key64, 5)), Xor(b6, OctetAt(key64, 6)), Xor(b7, OctetAt(key64, 7))]
  {
    var v := Word(b0, b1, b2, b3, b4, b5, b6, b7) ^ key64;
    OctetsOfWord(b0, b1, b2, b3, b4, b5, b6, b7);
    OctetXor(Word(b0, b1, b2, b3, b4, b5, b6, b7), key64);
    r := [Octet(v, 0), Octet(v, 8), Octet(v, 16), Octet(v, 24), Octet(v, 32), Octet(v, 40), Octet(v, 48), Octet(v, 56)];
  }

  /** The heart of the word-wise loop: XOR with the doubled key masks eight octets. */
  method XorWord(b: seq<Byte>, key64: bv64, ghost key: Key) returns (r: seq<Byte>)
    requires |b| == 8 && Doubles(key64, key)
    ensures r == Masked(b, key)
  {
    r := XorOctets(b[0], b[1], b[2], b[3], b[4], b[5], b[6], b[7], key64);
    MaskedEight(b, key);
  }

  // ----- Masking piece by piece -----

  lemma InStep(i: nat, n: nat)
    requires n <= i && n % 4 == 0
    ensures i % 4 == (i - n) % 4
  {
  }

  /** `b` is `b0` with the octets from `lo` to `p` masked. */
  ghost predicate MaskedUpTo(b: seq<Byte>, b0: seq<Byte>, lo: nat, p: nat, key: Key) {
    && lo <= p <= |b0| == |b|
    && (forall i :: 0 <= i < |b| ==> b[i] == if lo <= i < p then Xor(b0[i], key[(i - lo) % 4]) else b0[i])
  }

  lemma MaskedUpToIsMasked(b: seq<Byte>, b0: seq<Byte>, lo: nat, p: nat, key: Key)
    requires lo <= p <= |b0| == |b|
    ensures MaskedUpTo(b, b0, lo, p, key) <==> b == b0[..lo] + Masked(b0[lo..p], key) + b0[p..]
  {
    var m := Masked(b0[lo..p], key);
    forall i | lo <= i < p ensures m[i - lo] == Xor(b0[i], key[(i - lo) % 4]) {
      MaskedAt(b0[lo..p], key, i - lo);
    }
    var r := b0[..lo] + m + b0[p..];
    forall i | 0 <= i < |b| ensures r[i] == if lo <= i < p then Xor(b0[i], key[(i - lo) % 4]) else b0[i] {
      if lo <= i < p {
        assert r[i] == m[i - lo];
      }
    }
  }

  lemma MaskedExtend(b: seq<Byte>, b0: seq<Byte>, b': seq<Byte>, lo: nat, p: nat, q: nat, key: Key)
    requires MaskedUpTo(b, b0, lo, p, key) && (p - lo) % 4 == 0 && MaskedUpTo(b', b, p, q, key)
    ensures MaskedUpTo(b', b0, lo, q, key)
  {
    forall i | p <= i < q ensures b'[i] == Xor(b0[i], key[(i - lo) % 4]) {
      InStep(i - lo, p - lo);
    }
  }

  // ----- The loop -----

  /** Reads the little-endian word at `at`, XORs it with `key64` and writes it back. */
  method MaskWord(b: array<Byte>, at: nat, key64: bv64, ghost key: Key)
    requires at + 8 <= b.Length && Doubles(key64, key)
    modifies b
    ensures MaskedUpTo(b[..], old(b[..]), at, at + 8, key)
  {
    ghost var b0 := b[..];
    var r := XorWord(b[at..at + 8], key64, key);
    assert b[at..at + 8] == b0[at..at + 8];
    forall i | 0 <= i < 8 { b[at + i] := r[i]; }
    forall i | 0 <= i < b.Length
      ensures b[i] == if at <= i < at + 8 then Xor(b0[i], key[(i - at) % 4]) else b0[i]
    {
      if at <= i < at + 8 {
        assert b[at + (i - at)] == r[i - at];
        MaskedAt(b0[at..at + 8], key, i - at);
      }
    }
  }

  /** The unrolled body of the 64-octet loop. */
  method MaskEightWords(b: array<Byte>, at: nat, key64: bv64, ghost key: Key)
    requires at + 64 <= b.Length && Doubles(key64, key)
    modifies b
    ensures MaskedUpTo(b[..], old(b[..]), at, at + 64, key)
  {
    MaskTwoWords(b, at, key64, key);
    ghost var b1 := b[..];
    MaskTwoWords(b, at + 16, key64, key);
    MaskedExtend(b1, old(b[..]), b[..], at, at + 16, at + 32, key);
    b1 := b[..];
    MaskTwoWords(b, at + 32, key64, key);
    MaskedExtend(b1, old(b[..]), b[..], at, at + 32, at + 48, key);
    b1 := b[..];
    MaskTwoWords(b, at + 48, key64, key);
    MaskedExtend(b1, old(b[..]), b[..], at, at + 48, at + 64, key);
  }

  method MaskTwoWords(b: array<Byte>, at: nat, key64: bv64, ghost key: Key)
    requires at + 16 <= b.Length && Doubles(key64, key)
    modifies b
    ensures MaskedUpTo(b[..], old(b[..]), at, at + 16, key)
  {
    MaskWord(b, at, key64, key);
    ghost var b1 := b[..];
    MaskWord(b, at + 8, key64, key);
    MaskedExtend(b1, old(b[..]), b[..], at, at + 8, at + 16, key);
  }

  /** The last loop, octet by octet. */
  method MaskTail(b: array<Byte>, p: nat, n: nat, key: Key)
    requires p + n <= b.Length
    modifies b
    ensures MaskedUpTo(b[..], old(b[..]), p, p + n, key)
  {
    ghost var b0 := b[..];
    for i := 0 to n
      invariant MaskedUpTo(b[..], b0, p, p + i, key)
    {
      var idx := i % 4; // the source masks with 3
      b[p + i] := Xor(b[p + i], key[idx]);
    }
  }

  /** The 64-octet loop. */
  method MaskBlocks(b: array<Byte>, lo: nat, hi: nat, key64: bv64, ghost key: Key) returns (p: nat)
    requires lo <= hi <= b.Length && Doubles(key64, key)
    modifies b
    ensures MaskedUpTo(b[..], old(b[..]), lo, p, key) && p <= hi < p + 64 && (p - lo) % 4 == 0
  {
    p := lo;
    while hi - p >= 64
      invariant lo <= p <= hi && (p - lo) % 4 == 0
      invariant MaskedUpTo(b[..], old(b[..]), lo, p, key)
    {
      ghost var b1 := b[..];
      MaskEightWords(b, p, key64, key);
      MaskedExtend(b1, old(b[..]), b[..], lo, p, p + 64, key);
      p := p + 64;
    }
  }

  /** The 8-octet loop. */
  method MaskWords(b: array<Byte>, lo: nat, hi: nat, key64: bv64, ghost key: Key) returns (p: nat)
    requires lo <= hi <= b.Length && Doubles(key64, key)
    modifies b
    ensures MaskedUpTo(b[..], old(b[..]), lo, p, key) && p <= hi < p + 8 && (p - lo) % 4 == 0
  {
    p := lo;
    while hi - p >= 8
      invariant lo <= p <= hi && (p - lo) % 4 == 0
      invariant MaskedUpTo(b[..], old(b[..]), lo, p, key)
    {
      ghost var b1 := b[..];
      MaskWord(b, p, key64, key);
      MaskedExtend(b1, old(b[..]), b[..], lo, p, p + 8, key);
      p := p + 8;
    }
  }

  /** The two word-wise loops one after the other. */
  method MaskWordwise(b: array<Byte>, lo: nat, hi: nat, key64: bv64, ghost key: Key) returns (q: nat)
    requires lo <= hi <= b.Length && Doubles(key64, key)
    modifies b
    ensures MaskedUpTo(b[..], old(b[..]), lo, q, key) && q <= hi < q + 8 && (q - lo) % 4 == 0
  {
    var p := MaskBlocks(b, lo, hi, key64, key);
    ghost var b1 := b[..];
    q := MaskWords(b, p, hi, key64, key);
    MaskedExtend(b1, old(b[..]), b[..], lo, p, q, key);
  }

  /** And the last octets. */
  method MaskAll(b: array<Byte>, lo: nat, hi: nat, key64: bv64, key: Key)
    requires lo <= hi <= b.Length && Doubles(key64, key)
    modifies b
    ensures MaskedUpTo(b[..], old(b[..]), lo, hi, key)
  {
    var q := MaskWordwise(b, lo, hi, key64, key);
    ghost var b1 := b[..];
    MaskTail(b, q, hi - q, key);
    MaskedExtend(b1, old(b[..]), b[..], lo, q, hi, key);
  }

  /** `maskBytes` on the slice `b[lo..hi]`, in place; the rest of `b` stays as it is. */
  method MaskBytes(b: array<Byte>, lo: nat, hi: nat, key: Key)
    requires lo <= hi <= b.Length
    modifies b
    ensures MaskedUpTo(b[..], old(b[..]), lo, hi, key)
    ensures b[lo..hi] == Masked(old(b[lo..hi]), key)
  {
    ghost var b0 := b[..];
    var key64 := DoubleKey(key);
    MaskAll(b, lo, hi, key64, key);
    SliceMasked(b[..], b0, lo, hi, key);
    assert b[lo..hi] == b[..][lo..hi] && old(b[lo..hi]) == b0[lo..hi];
  }

  lemma SliceMasked(b: seq<Byte>, b0: seq<Byte>, lo: nat, hi: nat, key: Key)
    requires MaskedUpTo(b, b0, lo, hi, key)
    ensures b[lo..hi] == Masked(b0[lo..hi], key)
  {
    MaskedUpToIsMasked(b, b0, lo, hi, key);
  }
}
