/** The values that the derived codecs write and read. */
module Values {
  import opened Bytes

  datatype Value = Int(v: int) | Raw(bytes: seq<Byte>) | Record(fields: seq<Value>)
}
