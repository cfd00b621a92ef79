/** Marshalling and unmarshalling of go/proofs.pb.go, one after the other. */
module RoundTrip {
  import opened Ics23
  import opened Wire
  import opened Codec
  import opened Marshal
  import opened Unmarshal

  /** Marshalled and read into a fresh message, an existence proof comes back. */
  method ThroughTheWire(m: ExistenceProof) returns (ok: bool, r: ExistenceProof)
    requires |EncodeExistence(m)| < MAX_LEN
    ensures ok && r == m
  {
    var dAtA := MarshalExistenceProof(m);
    var message := new ExistenceProofMessage();
    ExistenceRoundTrip(m);
    ok := message.Unmarshal(dAtA[..]);
    r := message.Value();
  }

  /** So does a compressed one. */
  method CompressedThroughTheWire(m: CompressedExistenceProof) returns (ok: bool, r: CompressedExistenceProof)
    requires |EncodeCompressed(m)| < MAX_LEN
    ensures ok && r == m
  {
    var dAtA := MarshalCompressedProof(m);
    var message := new CompressedExistenceProofMessage();
    CompressedRoundTrip(m);
    ok := message.Unmarshal(dAtA[..]);
    r := message.Value();
  }
}
