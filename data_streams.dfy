/** data_stream_t: one probe's current and voltage.  The two doubles are
    kept as their raw 64-bit patterns: the storage engine copies them to
    and from disk bit for bit and never computes with them.
    (src/pslib/v1_0/data_stream_t.h) */
module DataStreams {
  datatype DataStream = DataStream(current: bv64, voltage: bv64)

  /** The value an all-zero byte pattern decodes to (+0.0, +0.0). */
  const Zero: DataStream := DataStream(0, 0)
}
