/** Fixed-width unsigned words and their byte layout in the sequence file.
    An entry is a C `unsigned int`: 32 bits, stored in 4 bytes, little-endian
    (the byte order of WebAssembly linear memory). */
module Words {

  type uint8 = x: int | 0 <= x < 256
  type uint32 = x: int | 0 <= x < 0x1_0000_0000

  /** 2^32, the modulus of `unsigned int` arithmetic */
  const MODULUS: int := 0x1_0000_0000

  /** `sizeof(unsigned int)`: the width of one entry in bytes */
  const WORD_SIZE: nat := 4

  /** `a + b` on `unsigned int`: the exact sum, wrapped around at most once */
  function AddWrap(a: uint32, b: uint32): (r: uint32)
    ensures r == a + b || r == a + b - MODULUS
    ensures r == a + b <==> a + b < MODULUS
  {
    (a + b) % MODULUS
  }

  /** The 4 bytes of `w`, least significant first */
  function EncodeWord(w: uint32): (r: seq<uint8>)
    ensures |r| == WORD_SIZE
    ensures DecodeWord(r) == w
  {
    var r1 := w / 256;
    var r2 := r1 / 256;
    [w % 256, r1 % 256, r2 % 256, r2 / 256]
  }

  /** The word whose little-endian bytes are `bs`: byte k is digit k of the
      word in base 256 */
  function DecodeWord(bs: seq<uint8>): (w: uint32)
    requires |bs| == WORD_SIZE
    ensures w % 256 == bs[0]
    ensures (w / 0x100) % 256 == bs[1]
    ensures (w / 0x1_0000) % 256 == bs[2]
    ensures w / 0x100_0000 == bs[3]
  {
    var b0: int, b1: int, b2: int, b3: int := bs[0], bs[1], bs[2], bs[3];
    b0 + 256 * (b1 + 256 * (b2 + 256 * b3))
  }

  /** Encoding is the inverse of decoding: every 4 bytes are some word's image */
  lemma EncodeDecode(bs: seq<uint8>)
    requires |bs| == WORD_SIZE
    ensures EncodeWord(DecodeWord(bs)) == bs
  {
  }

  /** The byte image of a sequence of entries, in order */
  function Serialize(ws: seq<uint32>): (b: seq<uint8>)
    ensures |b| == WORD_SIZE * |ws|
  {
    if ws == [] then [] else EncodeWord(ws[0]) + Serialize(ws[1..])
  }

  /** The entries of a byte sequence whose length is a whole number of words,
      read 4 bytes at a time from the start */
  function Entries(b: seq<uint8>): (ws: seq<uint32>)
    requires |b| % WORD_SIZE == 0
    ensures |ws| == |b| / WORD_SIZE
    decreases |b|
  {
    if |b| == 0 then [] else [DecodeWord(b[..WORD_SIZE])] + Entries(b[WORD_SIZE..])
  }

  /** Entry `i` is the word stored at bytes [4i, 4i+4) */
  lemma {:induction false} EntriesAt(b: seq<uint8>, i: nat)
    requires |b| % WORD_SIZE == 0
    requires i < |b| / WORD_SIZE
    ensures WORD_SIZE * i + WORD_SIZE <= |b|
    ensures Entries(b)[i] == DecodeWord(b[WORD_SIZE * i..WORD_SIZE * i + WORD_SIZE])
    decreases i
  {
    if i > 0 {
      EntriesAt(b[WORD_SIZE..], i - 1);
      assert b[WORD_SIZE..][WORD_SIZE * (i - 1)..WORD_SIZE * (i - 1) + WORD_SIZE]
          == b[WORD_SIZE * i..WORD_SIZE * i + WORD_SIZE];
    }
  }

  /** The last two entries are the words 8 and 4 bytes before the end */
  lemma LastTwoEntries(b: seq<uint8>)
    requires |b| % WORD_SIZE == 0 && 2 * WORD_SIZE <= |b|
    ensures var e := Entries(b);
      2 <= |e| &&
      e[|e| - 2] == DecodeWord(b[|b| - 2 * WORD_SIZE..|b| - WORD_SIZE]) &&
      e[|e| - 1] == DecodeWord(b[|b| - WORD_SIZE..])
  {
    var k := |b| / WORD_SIZE;
    assert WORD_SIZE * k == |b|;
    EntriesAt(b, k - 2);
    EntriesAt(b, k - 1);
  }

  /** Appending one encoded word appends one entry */
  lemma {:induction false} EntriesAppend(b: seq<uint8>, w: uint32)
    requires |b| % WORD_SIZE == 0
    ensures |b + EncodeWord(w)| % WORD_SIZE == 0
    ensures Entries(b + EncodeWord(w)) == Entries(b) + [w]
    decreases |b|
  {
    var e := EncodeWord(w);
    if |b| == 0 {
      assert b + e == e;
      assert e[..WORD_SIZE] == e && e[WORD_SIZE..] == [];
    } else {
      EntriesAppend(b[WORD_SIZE..], w);
      assert (b + e)[..WORD_SIZE] == b[..WORD_SIZE];
      assert (b + e)[WORD_SIZE..] == b[WORD_SIZE..] + e;
    }
  }

  /** Reading back a serialized sequence gives the same entries */
  lemma {:induction false} EntriesSerialize(ws: seq<uint32>)
    ensures |Serialize(ws)| % WORD_SIZE == 0
    ensures Entries(Serialize(ws)) == ws
  {
    if ws != [] {
      EntriesSerialize(ws[1..]);
      var b := Serialize(ws);
      assert b[..WORD_SIZE] == EncodeWord(ws[0]);
      assert b[WORD_SIZE..] == Serialize(ws[1..]);
    }
  }

  /** Every whole-word byte sequence is the serialization of its entries */
  lemma {:induction false} SerializeEntries(b: seq<uint8>)
    requires |b| % WORD_SIZE == 0
    ensures Serialize(Entries(b)) == b
    decreases |b|
  {
    if |b| > 0 {
      SerializeEntries(b[WORD_SIZE..]);
      EncodeDecode(b[..WORD_SIZE]);
      var ws := Entries(b);
      assert ws[1..] == Entries(b[WORD_SIZE..]);
      assert b == b[..WORD_SIZE] + b[WORD_SIZE..];
    }
  }
}
