/** The snappy frame compressor and decompressor (`snap::Writer` and
    `snap::Reader`) are a foreign library. The codec stands for them as a
    pair of functions that callers supply, and the one property the text
    encoding relies on is stated as a predicate over that pair. */
module Snappy {
  import opened Primitives

  /** `compress` cannot fail (it writes to memory); `decompress` gives
      `None` when `read_to_end` reports an error. */
  datatype Codec = Codec(compress: seq<byte> -> seq<byte>, decompress: seq<byte> -> Option<seq<byte>>)

  /** Decompression inverts compression. */
  ghost predicate Inverts(codec: Codec) {
    forall data :: codec.decompress(codec.compress(data)) == Some(data)
  }
}
