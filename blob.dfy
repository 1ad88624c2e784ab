/**
 * The stored form of a configuration record: the record's `n` bytes followed
 * by their checksum, low byte first.
 */
module Blob {
  import opened Crc16

  datatype Option<T> = None | Some(value: T)

  /** The low byte of a checksum, `crc & 0xFF`. */
  function Lo(crc: bv16): bv8 {
    (crc & 0xFF) as bv8
  }

  /** The high byte of a checksum, `(crc >> 8) & 0xFF`. */
  function Hi(crc: bv16): bv8 {
    ((crc >> 8) & 0xFF) as bv8
  }

  /** A checksum read back from its two bytes, `lo | hi << 8`. */
  function Join(lo: bv8, hi: bv8): bv16 {
    (lo as bv16) | ((hi as bv16) << 8)
  }

  /** Splitting a checksum into bytes and joining them gives it back. */
  lemma JoinSplit(crc: bv16)
    ensures Join(Lo(crc), Hi(crc)) == crc
  {
  }

  /** Joining two bytes and splitting the result gives them back. */
  lemma SplitJoin(lo: bv8, hi: bv8)
    ensures Lo(Join(lo, hi)) == lo && Hi(Join(lo, hi)) == hi
  {
  }

  /** The checksum stored in the last two bytes of a blob. */
  function StoredCrc(blob: seq<bv8>): bv16
    requires |blob| >= 2
  {
    Join(blob[|blob| - 2], blob[|blob| - 1])
  }

  /** The blob that saving the record `d` stores. */
  function Encode(d: seq<bv8>): seq<bv8> {
    d + [Lo(Checksum(d)), Hi(Checksum(d))]
  }

  /**
   * The record that loading `blob` accepts for a record of `n` bytes: none
   * unless the length is exactly `n + 2`, and none unless the stored
   * checksum equals the checksum of the first `n` bytes.
   */
  function Decode(blob: seq<bv8>, n: nat): Option<seq<bv8>> {
    if |blob| != n + 2 then None
    else if StoredCrc(blob) != Checksum(blob[..n]) then None
    else Some(blob[..n])
  }

  /** The layout of a saved blob: `n + 2` bytes, the record, then the checksum low and high. */
  lemma EncodeLayout(d: seq<bv8>)
    ensures |Encode(d)| == |d| + 2
    ensures Encode(d)[..|d|] == d
    ensures Encode(d)[|d|] == (Checksum(d) & 0xFF) as bv8
    ensures Encode(d)[|d| + 1] == ((Checksum(d) >> 8) & 0xFF) as bv8
    ensures StoredCrc(Encode(d)) == Checksum(d)
  {
    JoinSplit(Checksum(d));
  }

  /** Loading what was saved gives back the same record. */
  lemma DecodeEncode(d: seq<bv8>)
    ensures Decode(Encode(d), |d|) == Some(d)
  {
    EncodeLayout(d);
  }

  /** A blob that loading accepts is the encoding of the record it yields. */
  lemma {:induction false} DecodeAccepted(blob: seq<bv8>, n: nat)
    requires Decode(blob, n).Some?
    ensures |Decode(blob, n).value| == n
    ensures blob == Encode(Decode(blob, n).value)
  {
    SplitJoin(blob[n], blob[n + 1]);
    assert blob == blob[..n] + [blob[n], blob[n + 1]];
  }

  /** Loading accepts exactly the blobs that saving produces. */
  lemma DecodeOnlyEncodings(blob: seq<bv8>, n: nat, d: seq<bv8>)
    ensures Decode(blob, n) == Some(d) <==> |d| == n && blob == Encode(d)
  {
    if Decode(blob, n) == Some(d) {
      DecodeAccepted(blob, n);
    }
    if |d| == n && blob == Encode(d) {
      DecodeEncode(d);
    }
  }
}
