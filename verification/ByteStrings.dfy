/** The contents of blocks, buffers and files. */
module ByteStrings {

  type Bytes = seq<bv8>
}
