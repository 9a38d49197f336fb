/** The program-image format read by `load_file`: a big-endian origin
    address in the first two bytes, then big-endian 16-bit words. */
module Image {
  import opened Bytes
  import opened Iter

  /** A decoded image: where it goes in memory and the words it holds. */
  datatype Image = Image(origin: u16, words: seq<u16>)

  /** The index-out-of-bounds panics of the loader: which index was used on
      which collection, and how long that collection was. */
  datatype Panic =
    | BufferIndex(index: nat, len: nat)
    | MemoryIndex(index: nat, len: nat)

  datatype DecodeResult = Decoded(image: Image) | DecodePanic(panic: Panic)

  /** The word stream of `load_file`: the bytes at even positions from 2 on
      (`skip(2).step_by(2)`) zipped with the bytes at odd positions from 3 on
      (`skip(3).step_by(2)`), each pair joined big-endian. There are as many
      words as complete byte pairs after the header: an odd trailing byte is
      dropped, and a buffer of at most two bytes holds no words. */
  function Words(buffer: seq<byte>): (words: seq<u16>)
    ensures |words| == if |buffer| < 2 then 0 else (|buffer| - 2) / 2
  {
    var pairs := Zip(StepBy(Skip(buffer, 2), 2), StepBy(Skip(buffer, 3), 2));
    seq(|pairs|, k requires 0 <= k < |pairs| => FromBigEndian(pairs[k].0, pairs[k].1))
  }

  /** Word `k` joins bytes `2 + 2k` and `3 + 2k`, and there is a word `k`
      exactly when byte `3 + 2k` exists. */
  lemma WordsAt(buffer: seq<byte>, k: nat)
    ensures k < |Words(buffer)| <==> 3 + 2 * k < |buffer|
    ensures k < |Words(buffer)| ==>
      Words(buffer)[k] == FromBigEndian(buffer[2 + 2 * k], buffer[3 + 2 * k])
  {
    if k < |Words(buffer)| {
      var highs, lows := StepBy(Skip(buffer, 2), 2), StepBy(Skip(buffer, 3), 2);
      StepByAt(Skip(buffer, 2), 2, k);
      StepByAt(Skip(buffer, 3), 2, k);
      assert Zip(highs, lows)[k] == (buffer[2 + 2 * k], buffer[3 + 2 * k]);
    }
  }

  /** The numeric value of word `k`: byte `2 + 2k` is its high byte. */
  lemma WordValue(buffer: seq<byte>, k: nat)
    requires 3 + 2 * k < |buffer|
    ensures Words(buffer)[k] as int == buffer[2 + 2 * k] as int * 256 + buffer[3 + 2 * k] as int
  {
    WordsAt(buffer, k);
  }

  /** What `load_file` reads from the buffer before it touches memory:
      `buffer[0]` and `buffer[1]` panic on a buffer shorter than two bytes,
      otherwise they give the origin, and the rest gives the words. */
  function Decode(buffer: seq<byte>): (r: DecodeResult)
    ensures r.DecodePanic? <==> |buffer| < 2
    ensures r.DecodePanic? ==> r.panic == BufferIndex(|buffer|, |buffer|)
    ensures r.Decoded? ==> r.image.origin as int == buffer[0] as int * 256 + buffer[1] as int
    ensures r.Decoded? ==> r.image.words == Words(buffer)
  {
    if |buffer| < 2 then DecodePanic(BufferIndex(|buffer|, |buffer|))
    else Decoded(Image(FromBigEndian(buffer[0], buffer[1]), Words(buffer)))
  }

  /** The reference encoding of an image: each word as its two big-endian
      bytes, in order. */
  function EncodeWords(words: seq<u16>): (bytes: seq<byte>)
    ensures |bytes| == 2 * |words|
    ensures forall k :: 0 <= k < |words| ==>
      (bytes[2 * k], bytes[2 * k + 1]) == ToBigEndian(words[k])
  {
    if words == [] then []
    else [ToBigEndian(words[0]).0, ToBigEndian(words[0]).1] + EncodeWords(words[1..])
  }

  /** The reference encoding of a whole image: the origin, then the words. */
  function Encode(image: Image): (bytes: seq<byte>)
    ensures |bytes| == 2 + 2 * |image.words|
  {
    [ToBigEndian(image.origin).0, ToBigEndian(image.origin).1] + EncodeWords(image.words)
  }

  /** Decoding an encoded image gives the image back. */
  lemma DecodeEncode(image: Image)
    ensures Decode(Encode(image)) == Decoded(image)
  {
    var bytes := Encode(image);
    FromToBigEndian(image.origin);
    forall k | 0 <= k < |image.words|
      ensures Words(bytes)[k] == image.words[k]
    {
      WordsAt(bytes, k);
      FromToBigEndian(image.words[k]);
    }
  }

  /** Encoding a decoded buffer gives back the buffer without its odd
      trailing byte, if it had one: that byte is all the decoder loses. */
  lemma EncodeDecode(buffer: seq<byte>)
    requires |buffer| >= 2
    ensures Encode(Decode(buffer).image) == buffer[..|buffer| - |buffer| % 2]
  {
    var kept := buffer[..|buffer| - |buffer| % 2];
    ToFromBigEndian(buffer[0], buffer[1]);
    EncodeWordsDecode(buffer);
    assert kept == buffer[..2] + buffer[2..|buffer| - |buffer| % 2];
  }

  /** The encoding of the word stream is the buffer after the header, up to
      its last complete byte pair. */
  lemma EncodeWordsDecode(buffer: seq<byte>)
    requires |buffer| >= 2
    ensures EncodeWords(Words(buffer)) == buffer[2..|buffer| - |buffer| % 2]
  {
    var words := Words(buffer);
    var body := buffer[2..|buffer| - |buffer| % 2];
    forall k | 0 <= k < |words|
      ensures words[k] == FromBigEndian(body[2 * k], body[2 * k + 1])
    {
      WordsAt(buffer, k);
    }
    EncodePairs(words, body);
  }

  /** Words made of consecutive byte pairs encode back to those bytes. */
  lemma {:induction false} EncodePairs(words: seq<u16>, bytes: seq<byte>)
    requires |bytes| == 2 * |words|
    requires forall k :: 0 <= k < |words| ==> words[k] == FromBigEndian(bytes[2 * k], bytes[2 * k + 1])
    ensures EncodeWords(words) == bytes
  {
    if words != [] {
      ToFromBigEndian(bytes[0], bytes[1]);
      var rest := bytes[2..];
      forall k | 0 <= k < |words| - 1
        ensures words[1..][k] == FromBigEndian(rest[2 * k], rest[2 * k + 1])
      {
        assert words[k + 1] == FromBigEndian(bytes[2 * (k + 1)], bytes[2 * (k + 1) + 1]);
      }
      EncodePairs(words[1..], rest);
      assert bytes == [bytes[0], bytes[1]] + rest;
    }
  }

  /** Appending one byte to an even-length buffer adds no word: `zip` stops
      at the shorter iterator. */
  lemma OddTrailingByteIgnored(buffer: seq<byte>, extra: byte)
    requires |buffer| >= 2 && |buffer| % 2 == 0
    ensures Words(buffer + [extra]) == Words(buffer)
  {
    var longer := buffer + [extra];
    forall k | 0 <= k < |Words(buffer)|
      ensures Words(longer)[k] == Words(buffer)[k]
    {
      WordsAt(buffer, k);
      WordsAt(longer, k);
    }
  }
}
