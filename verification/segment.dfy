/**
 * The repair job ("injured segment") and the byte encoding the queue stores
 * it under. The queue only needs an encoder and a decoder that round-trip;
 * this module gives a concrete pair: a varint path length, the path bytes,
 * then every lost piece index as 4 big-endian bytes of its int32 bit pattern.
 */
module Segment {

  import opened Options
  import opened Bytes

  /** A segment path (a Go string, i.e. bytes) and the indices of its lost pieces. */
  datatype InjuredSegment = InjuredSegment(path: seq<uint8>, lostPieces: seq<int32>)

  /** The Go zero value pb.InjuredSegment{}, returned by a failed Dequeue. */
  const ZeroSegment := InjuredSegment([], [])

  /** n in base 128, least significant group first, high bit set on all but the last byte. */
  function Varint(n: nat): (s: seq<uint8>)
    ensures 0 < |s|
    decreases n
  {
    if n < 128 then [n] else [n % 128 + 128] + Varint(n / 128)
  }

  /** Reads one varint from the front of s: its value and how many bytes it took. */
  function ParseVarint(s: seq<uint8>): (r: Option<(nat, nat)>)
    ensures r.Some? ==> 0 < r.value.1 <= |s|
  {
    if s == [] then None
    else if s[0] < 128 then Some((s[0], 1))
    else match ParseVarint(s[1..])
      case None => None
      case Some((n, k)) => Some((s[0] - 128 + 128 * n, k + 1))
  }

  lemma {:induction false} ParseVarintOfVarint(n: nat, rest: seq<uint8>)
    ensures ParseVarint(Varint(n) + rest) == Some((n, |Varint(n)|))
    decreases n
  {
    if n >= 128 {
      assert (Varint(n) + rest)[1..] == Varint(n / 128) + rest;
      ParseVarintOfVarint(n / 128, rest);
    }
  }

  function EncodePieces(ps: seq<int32>): (s: seq<uint8>)
    ensures |s| == 4 * |ps|
  {
    if ps == [] then []
    else
      Pow256Widths();
      BigEndian(AsUint32(ps[0]), 4) + EncodePieces(ps[1..])
  }

  function DecodePieces(s: seq<uint8>): (ps: seq<int32>)
    requires |s| % 4 == 0
    ensures |ps| == |s| / 4
  {
    if s == [] then []
    else
      Pow256Widths();
      [AsInt32(FromBigEndian(s[..4]))] + DecodePieces(s[4..])
  }

  lemma {:induction false} DecodePiecesOfEncodePieces(ps: seq<int32>)
    ensures DecodePieces(EncodePieces(ps)) == ps
  {
    if ps != [] {
      Pow256Widths();
      var s := EncodePieces(ps);
      assert s[..4] == BigEndian(AsUint32(ps[0]), 4);
      assert s[4..] == EncodePieces(ps[1..]);
      FromBigEndianOfBigEndian(AsUint32(ps[0]), 4);
      AsInt32AsUint32(ps[0]);
      DecodePiecesOfEncodePieces(ps[1..]);
    }
  }

  /** Serialises a job (the role proto.Marshal plays in the queue). */
  function Marshal(seg: InjuredSegment): seq<uint8>
  {
    Varint(|seg.path|) + seg.path + EncodePieces(seg.lostPieces)
  }

  /** Deserialises a stored value; None when the bytes are not a well-formed job
      (the role proto.Unmarshal plays, with its error). */
  function Unmarshal(bytes: seq<uint8>): Option<InjuredSegment>
  {
    match ParseVarint(bytes)
    case None => None
    case Some((n, k)) =>
      var rest := bytes[k..];
      if n > |rest| || (|rest| - n) % 4 != 0 then None
      else Some(InjuredSegment(rest[..n], DecodePieces(rest[n..])))
  }

  /** Every job survives a trip through the store's byte encoding. */
  lemma MarshalRoundTrip(seg: InjuredSegment)
    ensures Unmarshal(Marshal(seg)) == Some(seg)
  {
    var head := Varint(|seg.path|);
    var tail := seg.path + EncodePieces(seg.lostPieces);
    assert Marshal(seg) == head + tail;
    ParseVarintOfVarint(|seg.path|, tail);
    assert Marshal(seg)[|head|..] == tail;
    assert tail[..|seg.path|] == seg.path && tail[|seg.path|..] == EncodePieces(seg.lostPieces);
    DecodePiecesOfEncodePieces(seg.lostPieces);
  }

  /** Distinct jobs are stored as distinct byte strings. */
  lemma MarshalInjective(a: InjuredSegment, b: InjuredSegment)
    requires Marshal(a) == Marshal(b)
    ensures a == b
  {
    MarshalRoundTrip(a);
    MarshalRoundTrip(b);
  }

}
