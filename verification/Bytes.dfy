/** Machine representation of the values that the file system stores on disk:
    bytes, and 32-bit integers in the little-endian order of the i386 host. */
module Bytes {

  type Byte = x: int | 0 <= x < 256
  type Word = x: int | 0 <= x < 0x1_0000_0000
  type Int32 = x: int | -0x8000_0000 <= x < 0x8000_0000

  /** Reinterpretation of a 32-bit pattern as `unsigned int` or as two's complement `int`. */
  function Unsigned(n: Int32): (w: Word)
    ensures Signed(w) == n && (w == n || w == n + 0x1_0000_0000)
  {
    if n < 0 then n + 0x1_0000_0000 else n
  }

  function Signed(w: Word): Int32 {
    if w < 0x8000_0000 then w else w - 0x1_0000_0000
  }

  /** The bytes of a word, least significant first. */
  function EncodeWord(w: Word): (s: seq<Byte>)
    ensures |s| == 4 && DecodeWord(s) == w
  {
    var w1 := w / 256;
    var w2 := w1 / 256;
    [w % 256, w1 % 256, w2 % 256, w2 / 256]
  }

  function DecodeWord(s: seq<Byte>): Word
    requires |s| == 4
  {
    (s[0] as int) + 256 * ((s[1] as int) + 256 * ((s[2] as int) + 256 * (s[3] as int)))
  }

  function Pow256(k: nat): (p: nat)
    ensures p > 0
  {
    if k == 0 then 1 else 256 * Pow256(k - 1)
  }

  /** Byte `k` of a stored word is digit `k` of its value in base 256. */
  lemma EncodedDigit(w: Word, k: nat)
    requires k < 4
    ensures EncodeWord(w)[k] == w / Pow256(k) % 256
  {
    assert Pow256(1) == 256 && Pow256(2) == 65536 && Pow256(3) == 16777216;
    assert w / 65536 == w / 256 / 256 && w / 16777216 == w / 65536 / 256;
  }

  /** An array of words as memory: word `k` occupies the bytes `4k` to `4k + 3`. */
  function EncodeWords(ws: seq<Word>): (s: seq<Byte>)
    ensures |s| == 4 * |ws|
  {
    seq(4 * |ws|, j requires 0 <= j < 4 * |ws| => EncodeWord(ws[j / 4])[j % 4])
  }

  function WordAt(s: seq<Byte>, k: nat): Word
    requires 4 * k + 4 <= |s|
  {
    DecodeWord(s[4 * k..4 * k + 4])
  }

  function DecodeWords(s: seq<Byte>, n: nat): (ws: seq<Word>)
    requires 4 * n <= |s|
  {
    seq(n, k requires 0 <= k < n => WordAt(s, k))
  }

  /** Reading back a word array that was stored at the start of some memory gives the array. */
  lemma WordsRoundTrip(ws: seq<Word>, s: seq<Byte>)
    requires EncodeWords(ws) <= s
    ensures DecodeWords(s, |ws|) == ws
  {
    forall k | 0 <= k < |ws| ensures WordAt(s, k) == ws[k] {
      WordRoundTrip(ws, s, k);
    }
  }

  lemma WordRoundTrip(ws: seq<Word>, s: seq<Byte>, k: nat)
    requires EncodeWords(ws) <= s && k < |ws|
    ensures WordAt(s, k) == ws[k]
  {
    EncodedByte(ws, k, 0);
    EncodedByte(ws, k, 1);
    EncodedByte(ws, k, 2);
    EncodedByte(ws, k, 3);
    SameWord(s[4 * k..4 * k + 4], EncodeWord(ws[k]));
  }

  lemma EncodedByte(ws: seq<Word>, k: nat, j: nat)
    requires k < |ws| && j < 4
    ensures EncodeWords(ws)[4 * k + j] == EncodeWord(ws[k])[j]
  {
  }

  lemma SameWord(s: seq<Byte>, w: seq<Byte>)
    requires |s| == |w| == 4 && s[0] == w[0] && s[1] == w[1] && s[2] == w[2] && s[3] == w[3]
    ensures DecodeWord(s) == DecodeWord(w)
  {
  }

  /** `into` with the elements from `at` on replaced by `data`. */
  function Splice<T>(into: seq<T>, at: nat, data: seq<T>): (r: seq<T>)
    requires at + |data| <= |into|
    ensures |r| == |into|
    ensures forall i :: 0 <= i < |r| ==> r[i] == if at <= i < at + |data| then data[i - at] else into[i]
  {
    into[..at] + data + into[at + |data|..]
  }

  function Min(a: int, b: int): int {
    if a < b then a else b
  }

  /** The macro divRoundUp for the non-negative operands it is used with. */
  function DivRoundUp(n: nat, s: nat): (r: nat)
    requires s > 0
    ensures s * (r - 1) < n <= s * r
  {
    n / s + if n % s > 0 then 1 else 0
  }
}
