/** Bytes, options, and the one thing flash programming can do to a byte: clear bits. */
module Bytes {
  type byte = b: int | 0 <= b < 256

  datatype Option<+T> = None | Some(value: T)

  // An erased NOR or QSPI cell.
  const ERASED: byte := 0xFF

  // Bitwise conjunction, written out on the binary digits.
  function And(a: nat, b: nat): (r: nat)
    ensures r <= a && r <= b
  {
    if a == 0 || b == 0 then 0
    else (if a % 2 == 1 && b % 2 == 1 then 1 else 0) + 2 * And(a / 2, b / 2)
  }

  // Digit k of a number in base two.
  function BinaryDigit(v: nat, k: nat): nat {
    if k == 0 then v % 2 else BinaryDigit(v / 2, k - 1)
  }

  // Every digit of the conjunction is the lesser of the two.
  lemma {:induction false} AndDigit(a: nat, b: nat, k: nat)
    ensures BinaryDigit(And(a, b), k) == if BinaryDigit(a, k) < BinaryDigit(b, k) then BinaryDigit(a, k) else BinaryDigit(b, k)
  {
    if a == 0 || b == 0 {
      ZeroDigits(k);
    } else if k > 0 {
      AndDigit(a / 2, b / 2, k - 1);
    }
  }

  lemma {:induction false} ZeroDigits(k: nat)
    ensures BinaryDigit(0, k) == 0
  {
    if k > 0 {
      ZeroDigits(k - 1);
    }
  }

  // Programming can only clear bits, so the cell ends up as old AND data.
  function Programmed(cell: byte, data: byte): byte {
    And(cell, data)
  }

  function Ones(bits: nat): nat {
    if bits == 0 then 0 else 1 + 2 * Ones(bits - 1)
  }

  lemma {:induction false} AndOnes(bits: nat, v: nat)
    requires v <= Ones(bits)
    ensures And(Ones(bits), v) == v && And(v, Ones(bits)) == v
  {
    if bits > 0 {
      AndOnes(bits - 1, v / 2);
    }
  }

  // Programming an erased cell stores exactly the data byte; programming $FF changes no cell.
  lemma ProgramErased(data: byte)
    ensures Programmed(ERASED, data) == data && Programmed(data, ERASED) == data
  {
    assert Ones(8) == 1 + 2 * Ones(7) && Ones(7) == 1 + 2 * Ones(6) && Ones(6) == 1 + 2 * Ones(5);
    assert Ones(5) == 1 + 2 * Ones(4) && Ones(4) == 1 + 2 * Ones(3) && Ones(3) == 1 + 2 * Ones(2);
    AndOnes(8, data);
  }

  // A run of one repeated byte.
  function Repeat(value: byte, count: nat): (s: seq<byte>)
    ensures |s| == count && forall i :: 0 <= i < count ==> s[i] == value
  {
    seq(count, _ => value)
  }

  // data written over s from offset on.
  function Overlay(s: seq<byte>, offset: nat, data: seq<byte>): (r: seq<byte>)
    requires offset + |data| <= |s|
    ensures |r| == |s|
    ensures forall i :: 0 <= i < |s| ==> r[i] == if offset <= i < offset + |data| then data[i - offset] else s[i]
  {
    s[..offset] + data + s[offset + |data|..]
  }

  lemma OverlayNothing(s: seq<byte>, offset: nat)
    requires offset <= |s|
    ensures Overlay(s, offset, []) == s
  {}

  lemma OverlayNext(s: seq<byte>, offset: nat, data: seq<byte>, n: nat)
    requires n < |data| && offset + |data| <= |s|
    ensures Overlay(s, offset, data[..n + 1]) == Overlay(s, offset, data[..n])[offset + n := data[n]]
  {}

  lemma NextPiece(s: seq<byte>, from: nat, to: nat)
    requires from <= to <= |s|
    ensures s[..to] == s[..from] + s[from..to]
  {}
}
