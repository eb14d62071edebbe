/** Bytes, the wrapping 8-bit arithmetic Rust's `u8` uses, and little-endian words. */
module Bytes {

  type byte = x: int | 0 <= x < 256

  /** Rust's `u8::wrapping_add`. */
  function WrappingAdd(a: byte, b: byte): (r: byte)
    ensures r == (a + b) % 256
  {
    if a + b < 256 then a + b else a + b - 256
  }

  /** Rust's `n as u8` for a non-negative `n`: the value modulo 256. */
  function AsU8(n: nat): (r: byte)
    ensures n < 256 ==> r == n
  {
    n % 256
  }

  /** Reducing an addend first does not change a sum taken modulo 256. */
  lemma AddMod(a: nat, b: nat)
    ensures (a + b % 256) % 256 == (a + b) % 256
  {
  }

  /** Sum of the bytes as an unbounded integer. */
  function Sum(s: seq<byte>): nat
  {
    if s == [] then 0 else Sum(s[..|s| - 1]) + s[|s| - 1]
  }

  /** `s.iter().fold(0, |acc, &x| acc.wrapping_add(x))`: the left fold of wrapping additions. */
  function Checksum(s: seq<byte>): (r: byte)
  {
    if s == [] then 0 else WrappingAdd(Checksum(s[..|s| - 1]), s[|s| - 1])
  }

  /** The wrapping fold is the ordinary sum reduced modulo 256. */
  lemma {:induction false} ChecksumIsSumMod256(s: seq<byte>)
    ensures Checksum(s) == Sum(s) % 256
  {
    if s != [] {
      ChecksumIsSumMod256(s[..|s| - 1]);
    }
  }

  /** Appending bytes to the summed region adds their sum. */
  lemma {:induction false} SumAppend(a: seq<byte>, b: seq<byte>)
    ensures Sum(a + b) == Sum(a) + Sum(b)
  {
    if b == [] {
      assert a + b == a;
    } else {
      assert (a + b)[..|a + b| - 1] == a + b[..|b| - 1];
      SumAppend(a, b[..|b| - 1]);
    }
  }

  /** Changing one byte of a region changes its sum by exactly the difference. */
  lemma SumUpdate(s: seq<byte>, i: nat, v: byte)
    requires i < |s|
    ensures Sum(s[i := v]) + s[i] == Sum(s) + v
  {
    assert s == s[..i] + [s[i]] + s[i + 1..];
    assert s[i := v] == s[..i] + [v] + s[i + 1..];
    SumAppend(s[..i] + [s[i]], s[i + 1..]);
    SumAppend(s[..i] + [v], s[i + 1..]);
    SumAppend(s[..i], [s[i]]);
    SumAppend(s[..i], [v]);
    assert Sum([s[i]]) == s[i] by { assert [s[i]][..0] == []; }
    assert Sum([v]) == v by { assert [v][..0] == []; }
  }

  /** Changing any one byte of a region changes its wrapping checksum. */
  lemma ChecksumChanges(s: seq<byte>, i: nat, v: byte)
    requires i < |s| && v != s[i]
    ensures Checksum(s[i := v]) != Checksum(s)
  {
    ChecksumIsSumMod256(s);
    ChecksumIsSumMod256(s[i := v]);
    SumUpdate(s, i, v);
  }

  /** The sum of one more byte of a prefix. */
  lemma SumPrefixStep(s: seq<byte>, k: nat)
    requires k < |s|
    ensures Sum(s[..k + 1]) == Sum(s[..k]) + s[k]
  {
    assert s[..k + 1][..k] == s[..k];
  }

  /** Rust's `u16::from_le_bytes([lo, hi])`. */
  function U16FromLe(lo: byte, hi: byte): (r: nat)
    ensures r < 0x1_0000
    ensures r % 256 == lo && r / 256 == hi
  {
    lo + 256 * hi
  }
}
