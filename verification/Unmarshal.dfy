/** skipProofs and Unmarshal of go/proofs.pb.go. The generated code repeats one field reader in every message;
    here it is written once, and each message's `switch fieldNum` is a method on its fields. */
module Unmarshal {
  import opened Bytes
  import opened Varints
  import opened Ics23
  import opened Wire
  import opened Codec

  // ---- Words -------------------------------------------------------------------------------------------

  lemma LowBits(v: nat, q: nat, m: nat, big: nat)
    requires m > 0 && big == m * q && q > 0
    ensures (v % big) % m == v % m
  {
    var k := v / big;
    assert v == big * k + v % big;
    assert big * k == m * (q * k);
    ModShift(v % big, q * k, m);
  }

  lemma NarrowTwice(v: nat)
    ensures I32(v % TWO32) == I32(v) && I64(v % TWO64) == I64(v)
  {
  }

  /** A 64-bit `wire` gives the same wire type and field number as the varint itself. */
  lemma TagOfWord(v: nat)
    ensures TagWire(v % TWO64) == TagWire(v) && TagNumber(v % TWO64) == TagNumber(v)
  {
    LowBits(v, 0x2000_0000_0000_0000, 8, TWO64);
    var k, w := v / TWO64, v % TWO64;
    assert v == TWO64 * k + w;
    assert v / 8 == 0x2000_0000_0000_0000 * k + w / 8;
    assert v / 8 == TWO32 * (0x2000_0000 * k) + w / 8;
    ModShift(w / 8, 0x2000_0000 * k, TWO32);
  }

  // ---- Values ------------------------------------------------------------------------------------------

  method ReadInt32(dAtA: Bytes, iNdEx: nat) returns (ok: bool, value: int32, next: nat)
    requires iNdEx <= |dAtA|
    ensures ok == ScanAt(dAtA, iNdEx, MAX_VARINT).Scanned?
    ensures ok ==> value == I32(ScanAt(dAtA, iNdEx, MAX_VARINT).value)
    ensures ok ==> next == ScanAt(dAtA, iNdEx, MAX_VARINT).next
  {
    var v;
    ok, v, next := ReadVarint(dAtA, iNdEx, TWO32);
    value := I32(v);
    if ok {
      NarrowTwice(ScanAt(dAtA, iNdEx, MAX_VARINT).value);
    }
  }

  /** A length and where its payload ends, every sum checked for overflow of Go's int. */
  method ReadLength(dAtA: Bytes, iNdEx: nat) returns (r: PayloadRead)
    requires iNdEx <= |dAtA| < MAX_LEN
    ensures r == ReadPayload(dAtA, iNdEx)
  {
    var ok, v, from := ReadVarint(dAtA, iNdEx, TWO64);
    if !ok {
      return NoPayload;
    }
    NarrowTwice(ScanAt(dAtA, iNdEx, MAX_VARINT).value);
    var byteLen := I64(v);
    if byteLen < 0 {
      return NoPayload;
    }
    var postIndex := I64(from + byteLen);
    if postIndex < 0 || postIndex > |dAtA| {
      return NoPayload;
    }
    return Payload(from, postIndex);
  }

  /** Packed indices up to `postIndex`. */
  method ReadPacked(dAtA: Bytes, start: nat, postIndex: nat) returns (r: IntsRead)
    requires start <= |dAtA|
    ensures r == ReadInts(dAtA, start, postIndex)
  {
    var path, iNdEx := [], start;
    while iNdEx < postIndex
      invariant iNdEx <= |dAtA|
      invariant ReadInts(dAtA, start, postIndex) == Joined(path, ReadInts(dAtA, iNdEx, postIndex))
      decreases |dAtA| - iNdEx
    {
      var ok, v, next := ReadInt32(dAtA, iNdEx);
      if !ok {
        return NoInts;
      }
      JoinedStep(path, v, ReadInts(dAtA, next, postIndex));
      path := path + [v];
      iNdEx := next;
    }
    assert path + [] == path;
    return Ints(path, iNdEx);
  }

  function Joined(path: seq<int32>, rest: IntsRead): IntsRead {
    match rest
    case NoInts => NoInts
    case Ints(values, next) => Ints(path + values, next)
  }

  lemma JoinedStep(path: seq<int32>, v: int32, rest: IntsRead)
    ensures Joined(path, Joined([v], rest)) == Joined(path + [v], rest)
  {
    if rest.Ints? {
      assert path + ([v] + rest.values) == path + [v] + rest.values;
    }
  }

  // ---- skipProofs ----------------------------------------------------------------------------------------

  /** Past one payload, as `skipProofs` moves its index: it may land behind the end of the buffer, or wrap
      around and be refused. */
  method PastPayload(dAtA: Bytes, start: nat, iNdEx: nat, wireType: nat) returns (ok: bool, next: nat)
    requires start + iNdEx <= |dAtA| < MAX_LEN
    ensures SkipPayload(dAtA, start + iNdEx, wireType)
         == if ok && start + next <= |dAtA| then Some(start + next) else None
    ensures ok ==> iNdEx <= next < MAX_LEN
  {
    ok, next := true, iNdEx;
    if wireType == WIRE_VARINT {
      var read, _, after := ReadVarint(dAtA, start + iNdEx, TWO64);
      if !read {
        return false, 0;
      }
      next := after - start;
    } else if wireType == WIRE_FIXED64 {
      ok, next := Advance(iNdEx, 8);
    } else if wireType == WIRE_BYTES {
      var read, v, after := ReadVarint(dAtA, start + iNdEx, TWO64);
      if !read {
        return false, 0;
      }
      NarrowTwice(ScanAt(dAtA, start + iNdEx, MAX_VARINT).value);
      var length := I64(v);
      if length < 0 {
        return false, 0;
      }
      ok, next := Advance(after - start, length);
    } else if wireType == WIRE_FIXED32 {
      ok, next := Advance(iNdEx, 4);
    } else if wireType != WIRE_START && wireType != WIRE_END {
      return false, 0;
    }
  }

  /** `iNdEx += n`, refused when it wraps around. */
  method Advance(iNdEx: nat, n: nat) returns (ok: bool, next: nat)
    requires iNdEx < MAX_LEN && n < MAX_LEN
    ensures ok == (iNdEx + n < MAX_LEN) && (ok ==> next == iNdEx + n)
  {
    var sum := I64(iNdEx + n);
    if sum < 0 {
      return false, 0;
    }
    return true, sum;
  }

  /** What `skipProofs` has still to do when its index stands at `i`, behind the end or not. */
  ghost function Rest(d: Bytes, i: nat, depth: nat): Option<nat> {
    if i <= |d| then SkipFrom(d, i, depth) else None
  }

  /** One turn of the loop: a tag, its payload, and the groups then open. */
  method SkipTurn(dAtA: Bytes, start: nat, iNdEx: nat, depth: nat) returns (ok: bool, next: nat, open: nat)
    requires start + iNdEx <= |dAtA| < MAX_LEN
    ensures SkipStep(dAtA, start + iNdEx, depth)
         == if ok && start + next <= |dAtA| then Step(start + next, open) else NoStep
    ensures ok ==> iNdEx < next < MAX_LEN
  {
    open := depth;
    var read, wire, after := ReadVarint(dAtA, start + iNdEx, TWO64);
    if !read {
      return false, 0, 0;
    }
    TagOfWord(ScanAt(dAtA, start + iNdEx, MAX_VARINT).value);
    var wireType := TagWire(wire);
    ok, next := PastPayload(dAtA, start, after - start, wireType);
    if wireType == WIRE_START {
      open := depth + 1;
    } else if wireType == WIRE_END {
      if depth == 0 {
        return false, 0, 0;
      }
      open := depth - 1;
    }
  }

  /** `skipProofs(dAtA[start:])`: the length of the field there, nested groups and all. */
  method SkipProofs(dAtA: Bytes, start: nat) returns (ok: bool, n: nat)
    requires start <= |dAtA| < MAX_LEN
    ensures SkipFrom(dAtA, start, 0) == if ok && start + n <= |dAtA| then Some(start + n) else None
    ensures ok ==> n < MAX_LEN
  {
    var iNdEx, depth := 0, 0;
    while start + iNdEx < |dAtA|
      invariant SkipFrom(dAtA, start, 0) == Rest(dAtA, start + iNdEx, depth)
      decreases |dAtA| - (start + iNdEx)
    {
      assert SkipFrom(dAtA, start + iNdEx, depth) == SkipTurns(dAtA, start + iNdEx, depth);
      var past, next, open := SkipTurn(dAtA, start, iNdEx, depth);
      if !past {
        return false, 0;
      }
      iNdEx, depth := next, open;
      if depth == 0 {
        return true, iNdEx;
      }
    }
    return false, 0;
  }

  // ---- Fields ------------------------------------------------------------------------------------------

  /** The value of a known field. */
  method ReadValue(dAtA: Bytes, iNdEx: nat, kind: Kind, num: nat, wireType: nat) returns (r: Next)
    requires iNdEx <= |dAtA| < MAX_LEN
    ensures r == ReadItem(dAtA, iNdEx, kind, num, wireType)
  {
    if wireType == WIRE_VARINT && kind != BytesKind {
      var ok, v, next := ReadInt32(dAtA, iNdEx);
      if !ok {
        return Stop;
      }
      return Got(if kind == IntKind then IntItem(num, v) else IntsItem(num, [v]), next);
    }
    if wireType != WIRE_BYTES || kind == IntKind {
      return Stop;
    }
    var payload := ReadLength(dAtA, iNdEx);
    if payload == NoPayload {
      return Stop;
    }
    if kind == BytesKind {
      return Got(BytesItem(num, dAtA[payload.from..payload.end]), payload.end);
    }
    var ints := ReadPacked(dAtA, payload.from, payload.end);
    if ints == NoInts {
      return Stop;
    }
    return Got(IntsItem(num, ints.values), ints.next);
  }

  /** One turn of an Unmarshal loop: a tag, then a known field's value or an unknown field skipped whole. */
  method ReadField(dAtA: Bytes, iNdEx: nat, schema: Schema) returns (r: Next)
    requires iNdEx <= |dAtA| < MAX_LEN
    ensures r == NextField(dAtA, iNdEx, schema)
  {
    var preIndex := iNdEx;
    var ok, wire, next := ReadVarint(dAtA, iNdEx, TWO64);
    if !ok {
      return Stop;
    }
    TagOfWord(ScanAt(dAtA, iNdEx, MAX_VARINT).value);
    var fieldNum, wireType := TagNumber(wire), TagWire(wire);
    if wireType == WIRE_END || fieldNum <= 0 {
      return Stop;
    }
    if fieldNum in schema {
      r := ReadValue(dAtA, next, schema[fieldNum], fieldNum, wireType);
    } else {
      var skipped, skippy := SkipProofs(dAtA, preIndex);
      if !skipped || I64(preIndex + skippy) < 0 || I64(preIndex + skippy) > |dAtA| {
        return Stop;
      }
      return Skipped(preIndex + skippy);
    }
  }

  // ---- Messages ----------------------------------------------------------------------------------------

  class InnerOpMessage {
    var hash: int32
    var prefix: Bytes
    var suffix: Bytes

    function Value(): InnerOp
      reads this
    {
      InnerOp(hash, prefix, suffix)
    }

    constructor ()
      ensures Value() == NO_INNER
    {
      hash, prefix, suffix := 0, [], [];
    }

    /** The fields of `dAtA` in order over the fields this message has. */
    method Unmarshal(dAtA: Bytes) returns (ok: bool)
      requires |dAtA| < MAX_LEN
      modifies this
      ensures ok == ParseInner(old(Value()), dAtA).Some?
      ensures ok ==> Some(Value()) == ParseInner(old(Value()), dAtA)
    {
      var iNdEx := 0;
      while iNdEx < |dAtA|
        invariant iNdEx <= |dAtA|
        invariant ParseFrom(dAtA, iNdEx, InnerSchema(), Value(), SetInner) == ParseInner(old(Value()), dAtA)
        decreases |dAtA| - iNdEx
      {
        assert ParseFrom(dAtA, iNdEx, InnerSchema(), Value(), SetInner)
            == ParseTurns(dAtA, iNdEx, InnerSchema(), Value(), SetInner);
        var field := ReadField(dAtA, iNdEx, InnerSchema());
        if field.Stop? {
          return false;
        }
        if field.Got? {
          match field.item {
            case IntItem(_, value) => hash := value;
            case BytesItem(num, payload) =>
              if num == 2 {
                prefix := payload;
              } else {
                suffix := payload;
              }
            case IntsItem(_, _) => return false;
          }
        }
        iNdEx := field.next;
      }
      return true;
    }
  }

  class LeafOpMessage {
    var hash: int32
    var prehashKey: int32
    var prehashValue: int32
    var length: int32
    var prefix: Bytes

    function Value(): LeafOp
      reads this
    {
      LeafOp(hash, prehashKey, prehashValue, length, prefix)
    }

    constructor ()
      ensures Value() == NO_LEAF
    {
      hash, prehashKey, prehashValue, length, prefix := 0, 0, 0, 0, [];
    }

    method Unmarshal(dAtA: Bytes) returns (ok: bool)
      requires |dAtA| < MAX_LEN
      modifies this
      ensures ok == ParseLeaf(old(Value()), dAtA).Some?
      ensures ok ==> Some(Value()) == ParseLeaf(old(Value()), dAtA)
    {
      var iNdEx := 0;
      while iNdEx < |dAtA|
        invariant iNdEx <= |dAtA|
        invariant ParseFrom(dAtA, iNdEx, LeafSchema(), Value(), SetLeaf) == ParseLeaf(old(Value()), dAtA)
        decreases |dAtA| - iNdEx
      {
        assert ParseFrom(dAtA, iNdEx, LeafSchema(), Value(), SetLeaf)
            == ParseTurns(dAtA, iNdEx, LeafSchema(), Value(), SetLeaf);
        var field := ReadField(dAtA, iNdEx, LeafSchema());
        if field.Stop? {
          return false;
        }
        if field.Got? {
          match field.item {
            case IntItem(num, value) =>
              if num == 1 {
                hash := value;
              } else if num == 2 {
                prehashKey := value;
              } else if num == 3 {
                prehashValue := value;
              } else {
                length := value;
              }
            case BytesItem(_, payload) => prefix := payload;
            case IntsItem(_, _) => return false;
          }
        }
        iNdEx := field.next;
      }
      return true;
    }
  }

  /** `m.Leaf`, allocated by the first leaf field and merged into by the others. */
  function LeafValue(leaf: LeafOpMessage?): Option<LeafOp>
    reads leaf
  {
    if leaf == null then None else Some(leaf.Value())
  }

  method UnmarshalLeaf(m: LeafOpMessage?, payload: Bytes) returns (ok: bool, leaf: LeafOpMessage)
    requires |payload| < MAX_LEN
    modifies m
    ensures if m == null then fresh(leaf) else leaf == m
    ensures ok == MergeLeaf(old(LeafValue(m)), payload).Some?
    ensures ok ==> LeafValue(leaf) == MergeLeaf(old(LeafValue(m)), payload)
  {
    if m == null {
      leaf := new LeafOpMessage();
    } else {
      leaf := m;
    }
    ok := leaf.Unmarshal(payload);
  }

  function PathValue(path: seq<InnerOpMessage>): (r: seq<InnerOp>)
    reads path
    ensures |r| == |path|
  {
    if path == [] then [] else PathValue(Init(path)) + [Last(path).Value()]
  }

  lemma PathValueAppend(path: seq<InnerOpMessage>, op: InnerOpMessage)
    ensures PathValue(path + [op]) == PathValue(path) + [op.Value()]
  {
    assert Init(path + [op]) == path;
  }

  class ExistenceProofMessage {
    var key: Bytes
    var value: Bytes
    var leaf: LeafOpMessage?
    var path: seq<InnerOpMessage>

    function Value(): ExistenceProof
      reads this, leaf, path
    {
      ExistenceProof(key, value, LeafValue(leaf), PathValue(path))
    }

    constructor ()
      ensures Value() == NO_EXISTENCE && leaf == null
    {
      key, value, leaf, path := [], [], null, [];
    }

    method Unmarshal(dAtA: Bytes) returns (ok: bool)
      requires |dAtA| < MAX_LEN
      modifies this, leaf
      ensures ok == ParseExistence(old(Value()), dAtA).Some?
      ensures ok ==> Some(Value()) == ParseExistence(old(Value()), dAtA)
    {
      var iNdEx := 0;
      while iNdEx < |dAtA|
        invariant iNdEx <= |dAtA|
        invariant leaf == old(leaf) || fresh(leaf)
        invariant ParseFrom(dAtA, iNdEx, ExistenceSchema(), Value(), SetExistence)
               == ParseExistence(old(Value()), dAtA)
        decreases |dAtA| - iNdEx
      {
        assert ParseFrom(dAtA, iNdEx, ExistenceSchema(), Value(), SetExistence)
            == ParseTurns(dAtA, iNdEx, ExistenceSchema(), Value(), SetExistence);
        var field := ReadField(dAtA, iNdEx, ExistenceSchema());
        if field.Stop? {
          return false;
        }
        if field.Got? {
          var applied := SetField(field.item);
          if !applied {
            return false;
          }
        }
        iNdEx := field.next;
      }
      return true;
    }

    /** The body of the `switch fieldNum`. */
    method SetField(it: Item) returns (ok: bool)
      requires it.BytesItem? ==> |it.payload| < MAX_LEN
      modifies this, leaf
      ensures leaf == old(leaf) || fresh(leaf)
      ensures ok == SetExistence(old(Value()), it).Some?
      ensures ok ==> Some(Value()) == SetExistence(old(Value()), it)
    {
      if !it.BytesItem? {
        return false;
      }
      if it.num == 1 {
        key := it.payload;
      } else if it.num == 2 {
        value := it.payload;
      } else if it.num == 3 {
        ok, leaf := UnmarshalLeaf(leaf, it.payload);
        return;
      } else {
        var op := new InnerOpMessage();
        ok := op.Unmarshal(it.payload);
        PathValueAppend(path, op);
        path := path + [op];
        return;
      }
      return true;
    }
  }

  class CompressedExistenceProofMessage {
    var key: Bytes
    var value: Bytes
    var leaf: LeafOpMessage?
    var path: seq<int32>

    function Value(): CompressedExistenceProof
      reads this, leaf
    {
      CompressedExistenceProof(key, value, LeafValue(leaf), path)
    }

    constructor ()
      ensures Value() == NO_COMPRESSED && leaf == null
    {
      key, value, leaf, path := [], [], null, [];
    }

    method Unmarshal(dAtA: Bytes) returns (ok: bool)
      requires |dAtA| < MAX_LEN
      modifies this, leaf
      ensures ok == ParseCompressed(old(Value()), dAtA).Some?
      ensures ok ==> Some(Value()) == ParseCompressed(old(Value()), dAtA)
    {
      var iNdEx := 0;
      while iNdEx < |dAtA|
        invariant iNdEx <= |dAtA|
        invariant leaf == old(leaf) || fresh(leaf)
        invariant ParseFrom(dAtA, iNdEx, CompressedSchema(), Value(), SetCompressed)
               == ParseCompressed(old(Value()), dAtA)
        decreases |dAtA| - iNdEx
      {
        assert ParseFrom(dAtA, iNdEx, CompressedSchema(), Value(), SetCompressed)
            == ParseTurns(dAtA, iNdEx, CompressedSchema(), Value(), SetCompressed);
        var field := ReadField(dAtA, iNdEx, CompressedSchema());
        if field.Stop? {
          return false;
        }
        if field.Got? {
          var applied := SetField(field.item);
          if !applied {
            return false;
          }
        }
        iNdEx := field.next;
      }
      return true;
    }

    method SetField(it: Item) returns (ok: bool)
      requires it.BytesItem? ==> |it.payload| < MAX_LEN
      modifies this, leaf
      ensures leaf == old(leaf) || fresh(leaf)
      ensures ok == SetCompressed(old(Value()), it).Some?
      ensures ok ==> Some(Value()) == SetCompressed(old(Value()), it)
    {
      match it {
        case IntItem(_, _) => return false;
        case IntsItem(_, values) => path := path + values;
        case BytesItem(num, payload) =>
          if num == 1 {
            key := payload;
          } else if num == 2 {
            value := payload;
          } else {
            ok, leaf := UnmarshalLeaf(leaf, payload);
            return;
          }
      }
      return true;
    }
  }
}
