/**
 The machine integers of the stack: octets, 16-bit words, and the conversions the
 code performs between them. A narrowing cast of a length is written out as Truncate.
 */
module Bytes {
  type byte = b: int | 0 <= b < 0x100
  type word = w: int | 0 <= w < 0x1_0000
  type int8 = i: int | -0x80 <= i < 0x80

  datatype Option<+T> = None | Some(value: T)

  function Pow2(n: nat): (p: nat)
    ensures p >= 1
  {
    if n == 0 then 1 else 2 * Pow2(n - 1)
  }

  /** w & 0xFF */
  function Lo(w: word): byte { w % 0x100 }

  /** (w >> 8) & 0xFF */
  function Hi(w: word): byte { w / 0x100 }

  /** lo | (hi << 8) */
  function Word(lo: byte, hi: byte): word { lo + 0x100 * hi }

  /** (uint8_t) n, for a size n */
  function Truncate(n: nat): byte { n % 0x100 }

  /** static_cast<int8_t>(b) */
  function Signed(b: byte): (r: int8)
    ensures (b - r) % 0x100 == 0
  {
    if b < 0x80 then b else b - 0x100
  }

  /** Low and high octet are the digits of a word to base 256, low one first; a truncation keeps the lowest. */
  lemma Digits(w: word, lo: byte, hi: byte, n: nat)
    ensures Word(lo, hi) % 0x100 == lo && Word(lo, hi) / 0x100 == hi
    ensures Word(Lo(w), Hi(w)) == w
    ensures (n - Truncate(n)) % 0x100 == 0
  {
  }

  /** The little-endian octets of a list of words. */
  function WordBytes(ws: seq<word>): (bs: seq<byte>)
    ensures |bs| == 2 * |ws|
  {
    if ws == [] then [] else WordBytes(ws[..|ws| - 1]) + [Lo(ws[|ws| - 1]), Hi(ws[|ws| - 1])]
  }

  /** The n words read from bs at offset from. */
  function ReadWords(bs: seq<byte>, from: nat, n: nat): (ws: seq<word>)
    requires from + 2 * n <= |bs|
    ensures |ws| == n
  {
    if n == 0 then []
    else ReadWords(bs, from, n - 1) + [Word(bs[from + 2 * n - 2], bs[from + 2 * n - 1])]
  }

  /** Reading back what was written, wherever it was written. */
  lemma {:induction false} ReadWritten(pre: seq<byte>, ws: seq<word>, post: seq<byte>)
    ensures ReadWords(pre + WordBytes(ws) + post, |pre|, |ws|) == ws
  {
    if ws != [] {
      var k := |ws| - 1;
      var last := [Lo(ws[k]), Hi(ws[k])];
      ReadWritten(pre, ws[..k], last + post);
      assert pre + WordBytes(ws) + post == pre + WordBytes(ws[..k]) + (last + post);
      assert ws == ws[..k] + [ws[k]];
    }
  }

  /** Writing what was read gives back the octets it was read from. */
  lemma {:induction false} WrittenRead(bs: seq<byte>, from: nat, n: nat)
    requires from + 2 * n <= |bs|
    ensures WordBytes(ReadWords(bs, from, n)) == bs[from..from + 2 * n]
  {
    hide Word, Lo, Hi;
    if n > 0 {
      var mid := from + 2 * n - 2;
      var ws := ReadWords(bs, from, n - 1);
      WrittenRead(bs, from, n - 1);
      WordBytesSnoc(ws, Word(bs[mid], bs[mid + 1]));
      OctetsBack(bs[mid], bs[mid + 1]);
      SliceSnoc(bs, from, mid);
    }
  }

  lemma OctetsBack(lo: byte, hi: byte) ensures Lo(Word(lo, hi)) == lo && Hi(Word(lo, hi)) == hi {}

  lemma WordBytesSnoc(ws: seq<word>, w: word)
    ensures WordBytes(ws + [w]) == WordBytes(ws) + [Lo(w), Hi(w)]
  {
    assert (ws + [w])[..|ws|] == ws;
  }

  lemma SliceSnoc(bs: seq<byte>, from: nat, to: nat)
    requires from <= to && to + 2 <= |bs|
    ensures bs[from..to + 2] == bs[from..to] + [bs[to], bs[to + 1]]
  {
  }
}
