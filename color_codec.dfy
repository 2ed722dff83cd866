/**
 * Colour codec of the USB LED client: every colour channel travels as the four
 * little-endian bytes of an f32. The client only reinterprets bits, so a channel
 * is modelled as the 32-bit pattern of the float.
 */
module ColorCodec {

  /** One byte on the serial line. */
  type Byte = bv8

  /** One colour channel: the IEEE-754 single-precision bit pattern of an f32. */
  type Word = bv32

  /** The bit pattern of +0.0, the value every unfilled channel keeps. */
  const Zero: Word := 0

  /** Bytes per channel and channels per colour (hue, saturation, value). */
  const WordBytes: nat := 4
  const ColorWords: nat := 3

  /** `f32::to_le_bytes`: least significant byte first. */
  function LeBytes(w: Word): (b: seq<Byte>)
    ensures |b| == WordBytes
  {
    [(w & 0xFF) as Byte, ((w >> 8) & 0xFF) as Byte, ((w >> 16) & 0xFF) as Byte, (w >> 24) as Byte]
  }

  /** `f32::from_le_bytes` on four bytes. */
  function FromLe(b: seq<Byte>): Word
    requires |b| == WordBytes
  {
    (b[0] as Word) | ((b[1] as Word) << 8) | ((b[2] as Word) << 16) | ((b[3] as Word) << 24)
  }

  lemma WordRoundTrip(w: Word)
    ensures FromLe(LeBytes(w)) == w
  {
  }

  lemma BytesRoundTrip(b: seq<Byte>)
    requires |b| == WordBytes
    ensures LeBytes(FromLe(b)) == b
  {
  }

  /** The little-endian bytes of a run of channels, laid end to end. */
  function LeWords(ws: seq<Word>): (b: seq<Byte>)
    ensures |b| == WordBytes * |ws|
  {
    if |ws| == 0 then [] else LeBytes(ws[0]) + LeWords(ws[1..])
  }

  /** Channel `i` occupies bytes `4i .. 4i+4` of the encoding. */
  lemma {:induction false} LeWordsAt(ws: seq<Word>, i: nat)
    requires i < |ws|
    ensures LeWords(ws)[WordBytes * i .. WordBytes * i + WordBytes] == LeBytes(ws[i])
  {
    var rest := LeWords(ws[1..]);
    assert LeWords(ws) == LeBytes(ws[0]) + rest;
    if i > 0 {
      LeWordsAt(ws[1..], i - 1);
      assert LeWords(ws)[WordBytes * i .. WordBytes * i + WordBytes]
          == rest[WordBytes * (i - 1) .. WordBytes * (i - 1) + WordBytes];
    }
  }

  /** Encoding distributes over concatenation of channel runs. */
  lemma {:induction false} LeWordsAppend(ws: seq<Word>, vs: seq<Word>)
    ensures LeWords(ws + vs) == LeWords(ws) + LeWords(vs)
  {
    if |ws| > 0 {
      assert (ws + vs)[1..] == ws[1..] + vs;
      LeWordsAppend(ws[1..], vs);
    } else {
      assert ws + vs == vs;
    }
  }

  /**
   * What `parse_color` can be applied to without panicking: it indexes bytes 0..3
   * of each of the first three 4-byte chunks, so none of those may be short.
   */
  predicate WholeChunks(data: seq<Byte>) {
    |data| % WordBytes == 0 || |data| >= WordBytes * ColorWords
  }

  /** Slot `i` of `parse_color`'s result: chunk `i` read as a word, or +0.0 if there is no such chunk. */
  function Slot(data: seq<Byte>, i: nat): Word
    requires WholeChunks(data) && i < ColorWords
  {
    if WordBytes * i < |data| then FromLe(data[WordBytes * i .. WordBytes * i + WordBytes]) else Zero
  }

  /** The three channels `parse_color` rebuilds from `data`. */
  function DecodeColor(data: seq<Byte>): seq<Word>
    requires WholeChunks(data)
  {
    [Slot(data, 0), Slot(data, 1), Slot(data, 2)]
  }

  /**
   * `parse_color`: walk the 4-byte chunks of `data`, stop after the third and
   * rebuild each word; slots without a chunk stay +0.0.
   */
  method ParseColor(data: seq<Byte>) returns (out: seq<Word>)
    requires WholeChunks(data)
    ensures out == DecodeColor(data)
  {
    var slots := new Word[ColorWords](_ => Zero);
    var index := 0;
    while WordBytes * index < |data|
      invariant index <= ColorWords
      invariant forall k :: 0 <= k < ColorWords ==>
        slots[k] == if k < index then Slot(data, k) else Zero
    {
      if index > 2 { break; }
      var stop := if WordBytes * index + WordBytes <= |data| then WordBytes * index + WordBytes else |data|;
      var value := data[WordBytes * index .. stop];
      slots[index] := FromLe([value[0], value[1], value[2], value[3]]);
      index := index + 1;
    }
    out := slots[..];
  }

  /**
   * Decoding what was encoded: up to three channels come back bit for bit, and
   * the slots with no chunk behind them read +0.0.
   */
  lemma {:induction false} DecodeLeWords(ws: seq<Word>)
    requires |ws| <= ColorWords
    ensures WholeChunks(LeWords(ws))
    ensures DecodeColor(LeWords(ws)) == ws + seq(ColorWords - |ws|, _ => Zero)
  {
    var data := LeWords(ws);
    var padded := ws + seq(ColorWords - |ws|, _ => Zero);
    forall i | 0 <= i < ColorWords
      ensures Slot(data, i) == padded[i]
    {
      if i < |ws| {
        LeWordsAt(ws, i);
        WordRoundTrip(ws[i]);
      }
    }
  }

  /** The colour round trip: three channels encoded and decoded give themselves back. */
  lemma ColorRoundTrip(c: seq<Word>)
    requires |c| == ColorWords
    ensures WholeChunks(LeWords(c)) && DecodeColor(LeWords(c)) == c
  {
    DecodeLeWords(c);
  }

  /** At most three chunks are read: bytes past the twelfth never matter. */
  lemma DecodeIgnoresTail(data: seq<Byte>)
    requires |data| >= WordBytes * ColorWords
    ensures DecodeColor(data) == DecodeColor(data[..WordBytes * ColorWords])
  {
    var head := data[..WordBytes * ColorWords];
    forall i | 0 <= i < ColorWords
      ensures Slot(data, i) == Slot(head, i)
    {
      assert data[WordBytes * i .. WordBytes * i + WordBytes] == head[WordBytes * i .. WordBytes * i + WordBytes];
    }
  }
}
