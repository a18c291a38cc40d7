/** Bytes, as files and encodings hold them. */
module RawBytes {
  type Byte = n: nat | n < 256

  type Bytes = seq<Byte>
}
