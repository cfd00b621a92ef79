/** The protobuf wire format as the generated Go code reads it (Protocol Buffers Encoding, section
    "Message Structure"): fields, skipping of unknown fields, and the read loop every message shares.
    Readers work on a whole buffer and an index into it; a failed read has no index. */
module Wire {
  import opened Bytes
  import opened Varints

  const WIRE_VARINT := 0
  const WIRE_FIXED64 := 1
  const WIRE_BYTES := 2
  const WIRE_START := 3
  const WIRE_END := 4
  const WIRE_FIXED32 := 5

  const MAX_FIELD := 0x1000_0000
  const MAX_LEN := 0x8000_0000_0000_0000

  function Tag(num: nat, wire: nat): Bytes {
    Varint(8 * num + wire)
  }

  /** `int(wire & 0x7)`; the bits a varint may carry above the 64th do not reach it. */
  function TagWire(v: nat): nat {
    v % 8
  }

  /** `int32(wire >> 3)`; nor do they reach these 32 bits. */
  function TagNumber(v: nat): int32 {
    I32(v / 8)
  }

  // ---- Skipping --------------------------------------------------------------------------------------

  datatype PayloadRead = NoPayload | Payload(from: nat, end: nat)

  /** A length-delimited payload: a varint read as a signed 64-bit length, then that many bytes. */
  function ReadPayload(d: Bytes, i: nat): (r: PayloadRead)
    requires i <= |d|
    ensures r.Payload? ==> i < r.from <= r.end <= |d|
  {
    match ScanAt(d, i, MAX_VARINT)
    case Bad => NoPayload
    case Scanned(v, from) => if 0 <= I64(v) <= |d| - from then Payload(from, from + I64(v)) else NoPayload
  }

  /** The index after a field whose tag ends at `i`; for a group tag, `i` itself. */
  function SkipPayload(d: Bytes, i: nat, wire: nat): (r: Option<nat>)
    requires i <= |d|
    ensures r.Some? ==> i <= r.value <= |d|
  {
    if wire == WIRE_VARINT then
      match ScanAt(d, i, MAX_VARINT)
      case Bad => None
      case Scanned(_, next) => Some(next)
    else if wire == WIRE_FIXED64 then if i + 8 <= |d| then Some(i + 8) else None
    else if wire == WIRE_BYTES then
      match ReadPayload(d, i)
      case NoPayload => None
      case Payload(_, end) => Some(end)
    else if wire == WIRE_START || wire == WIRE_END then Some(i)
    else if wire == WIRE_FIXED32 then if i + 4 <= |d| then Some(i + 4) else None
    else None
  }

  function OpenGroups(wire: nat, depth: nat): nat
    requires wire == WIRE_END ==> depth > 0
  {
    if wire == WIRE_START then depth + 1 else if wire == WIRE_END then depth - 1 else depth
  }

  datatype Step = NoStep | Step(next: nat, open: nat)

  /** One turn of `skipProofs`: past a tag and its payload, and the groups then open. */
  function SkipStep(d: Bytes, i: nat, depth: nat): (r: Step)
    requires i <= |d|
    ensures r.Step? ==> i < r.next <= |d|
  {
    match ScanAt(d, i, MAX_VARINT)
    case Bad => NoStep
    case Scanned(v, j) =>
      var end := SkipPayload(d, j, TagWire(v));
      if end == None || (TagWire(v) == WIRE_END && depth == 0) then NoStep
      else Step(end.value, OpenGroups(TagWire(v), depth))
  }

  /** `skipProofs` from index `i` on with `depth` groups open: the index after the field. */
  function SkipFrom(d: Bytes, i: nat, depth: nat): (r: Option<nat>)
    requires i <= |d|
    ensures r.Some? ==> i < r.value <= |d|
    decreases |d| - i, 1
  {
    if i == |d| then None else SkipTurns(d, i, depth)
  }

  /** One turn of the loop, and the others. */
  function SkipTurns(d: Bytes, i: nat, depth: nat): (r: Option<nat>)
    requires i < |d|
    ensures r.Some? ==> i < r.value <= |d|
    decreases |d| - i, 0
  {
    match SkipStep(d, i, depth)
    case NoStep => None
    case Step(next, open) => if open == 0 then Some(next) else SkipFrom(d, next, open)
  }

  // ---- Fields ----------------------------------------------------------------------------------------

  datatype Item =
    | IntItem(num: nat, value: int32)
    | BytesItem(num: nat, payload: Bytes)
    | IntsItem(num: nat, values: seq<int32>)

  datatype Kind = IntKind | BytesKind | PackedKind

  type Schema = map<int, Kind>

  datatype IntsRead = NoInts | Ints(values: seq<int32>, next: nat)

  /** Packed varints, each narrowed to 32 bits, until `end` is reached. The last one may run past it; the
      reader goes on where that one ends. */
  function ReadInts(d: Bytes, i: nat, end: nat): (r: IntsRead)
    requires i <= |d|
    ensures r.Ints? ==> i <= r.next <= |d|
    decreases |d| - i
  {
    if i >= end then Ints([], i)
    else
      match ScanAt(d, i, MAX_VARINT)
      case Bad => NoInts
      case Scanned(v, j) =>
        match ReadInts(d, j, end)
        case NoInts => NoInts
        case Ints(vs, next) => Ints([I32(v)] + vs, next)
  }

  datatype Next = Stop | Got(item: Item, next: nat) | Skipped(next: nat)

  /** The value, at index `i`, of a known field. */
  function ReadItem(d: Bytes, i: nat, kind: Kind, num: nat, wire: nat): (r: Next)
    requires i <= |d|
    ensures !r.Skipped? && (r.Got? ==> i <= r.next <= |d|)
  {
    if wire == WIRE_VARINT && kind != BytesKind then
      match ScanAt(d, i, MAX_VARINT)
      case Bad => Stop
      case Scanned(v, next) => Got(if kind == IntKind then IntItem(num, I32(v)) else IntsItem(num, [I32(v)]), next)
    else if wire == WIRE_BYTES && kind != IntKind then
      match ReadPayload(d, i)
      case NoPayload => Stop
      case Payload(from, end) =>
        if kind == BytesKind then Got(BytesItem(num, d[from..end]), end)
        else
          match ReadInts(d, from, end)
          case NoInts => Stop
          case Ints(values, next) => Got(IntsItem(num, values), next)
    else Stop
  }

  /** One turn of a generated Unmarshal loop: the field at index `i`, or an error. */
  function NextField(d: Bytes, i: nat, schema: Schema): (r: Next)
    requires i <= |d|
    ensures r.Got? ==> i < r.next <= |d|
    ensures r.Skipped? ==> i < r.next <= |d|
  {
    match ScanAt(d, i, MAX_VARINT)
    case Bad => Stop
    case Scanned(v, j) =>
      var num, wire := TagNumber(v), TagWire(v);
      if wire == WIRE_END || num <= 0 then Stop
      else if num in schema then ReadItem(d, j, schema[num], num, wire)
      else
        match SkipFrom(d, i, 0)
        case None => Stop
        case Some(next) => Skipped(next)
  }

  /** The read loop of a message from index `i` on: apply every known field in order, skip the others,
      fail on any error. */
  function ParseFrom<M>(d: Bytes, i: nat, schema: Schema, m: M, apply: (M, Item) -> Option<M>): Option<M>
    requires i <= |d|
    decreases |d| - i, 1
  {
    if i == |d| then Some(m) else ParseTurns(d, i, schema, m, apply)
  }

  /** One turn of the loop, and the others. */
  function ParseTurns<M>(d: Bytes, i: nat, schema: Schema, m: M, apply: (M, Item) -> Option<M>): Option<M>
    requires i < |d|
    decreases |d| - i, 0
  {
    match NextField(d, i, schema)
    case Stop => None
    case Skipped(next) => ParseFrom(d, next, schema, m, apply)
    case Got(item, next) =>
      match apply(m, item)
      case None => None
      case Some(m') => ParseFrom(d, next, schema, m', apply)
  }

  // ---- Well-formed unknown fields --------------------------------------------------------------------

  /** Exactly one varint, shortest form or not. */
  ghost predicate OneVarint(b: Bytes) {
    ScanAt(b, 0, MAX_VARINT).Scanned? && ScanAt(b, 0, MAX_VARINT).next == |b|
  }

  ghost function VarintValue(b: Bytes): nat
    requires OneVarint(b)
  {
    ScanAt(b, 0, MAX_VARINT).value
  }

  ghost predicate IsTag(b: Bytes, wire: nat) {
    OneVarint(b) && TagWire(VarintValue(b)) == wire
  }

  ghost predicate IsLength(b: Bytes, n: nat) {
    OneVarint(b) && I64(VarintValue(b)) == n
  }

  /** A field no schema need know: any wire type, any spelling of its varints, groups nested to any depth
      and closed by any number. */
  datatype Unknown =
    | UnknownVarint(tag: Bytes, value: Bytes)
    | UnknownFixed64(tag: Bytes, eight: Bytes)
    | UnknownBytes(tag: Bytes, length: Bytes, bytes: Bytes)
    | UnknownGroup(tag: Bytes, fields: seq<Unknown>, end: Bytes)
    | UnknownFixed32(tag: Bytes, four: Bytes)

  ghost predicate UnknownFits(u: Unknown)
    decreases u
  {
    match u
    case UnknownVarint(tag, value) => IsTag(tag, WIRE_VARINT) && OneVarint(value)
    case UnknownFixed64(tag, eight) => IsTag(tag, WIRE_FIXED64) && |eight| == 8
    case UnknownBytes(tag, length, bytes) => IsTag(tag, WIRE_BYTES) && IsLength(length, |bytes|)
    case UnknownGroup(tag, fields, end) => IsTag(tag, WIRE_START) && UnknownsFit(fields) && IsTag(end, WIRE_END)
    case UnknownFixed32(tag, four) => IsTag(tag, WIRE_FIXED32) && |four| == 4
  }

  ghost predicate UnknownsFit(us: seq<Unknown>)
    decreases us
  {
    us == [] || (UnknownFits(us[0]) && UnknownsFit(us[1..]))
  }

  ghost function EncodeUnknown(u: Unknown): Bytes
    decreases u
  {
    match u
    case UnknownVarint(tag, value) => tag + value
    case UnknownFixed64(tag, eight) => tag + eight
    case UnknownBytes(tag, length, bytes) => tag + (length + bytes)
    case UnknownGroup(tag, fields, end) => tag + (EncodeUnknowns(fields) + end)
    case UnknownFixed32(tag, four) => tag + four
  }

  ghost function EncodeUnknowns(us: seq<Unknown>): Bytes
    decreases us
  {
    if us == [] then [] else EncodeUnknown(us[0]) + EncodeUnknowns(us[1..])
  }

  /** A varint in place scans as it does alone. */
  lemma {:induction false} VarintAt(d: Bytes, i: nat, b: Bytes)
    requires At(d, i, b) && OneVarint(b)
    ensures ScanAt(d, i, MAX_VARINT) == Scanned(VarintValue(b), i + |b|)
  {
    assert SameBytes(b, 0, |b|, d, i);
    ScanLocal(b, 0, d, i, MAX_VARINT);
  }

  lemma {:induction false} PayloadAt(d: Bytes, i: nat, length: Bytes, bytes: Bytes)
    requires At(d, i, length + bytes) && IsLength(length, |bytes|)
    ensures ReadPayload(d, i) == Payload(i + |length|, i + |length + bytes|)
    ensures d[i + |length|..i + |length + bytes|] == bytes
  {
    AtParts(d, i, length, bytes);
    VarintAt(d, i, length);
    AtSlice(d, i + |length|, bytes);
  }

  /** What is left of skipping once a field has ended at `j` with `open` groups open. */
  ghost function SkipOn(d: Bytes, j: nat, open: nat): Option<nat>
    requires j <= |d|
  {
    if open == 0 then Some(j) else SkipFrom(d, j, open)
  }

  /** Skipping a tag leaves skipping its payload. */
  lemma {:induction false} SkipTag(d: Bytes, i: nat, tag: Bytes, wire: nat, depth: nat, end: nat)
    requires At(d, i, tag) && IsTag(tag, wire) && SkipPayload(d, i + |tag|, wire) == Some(end)
    requires wire == WIRE_END ==> depth > 0
    ensures SkipFrom(d, i, depth) == SkipOn(d, end, OpenGroups(wire, depth))
  {
    VarintAt(d, i, tag);
    assert SkipFrom(d, i, depth) == SkipTurns(d, i, depth);
  }

  lemma {:induction false} SkipVarint(d: Bytes, i: nat, tag: Bytes, value: Bytes, depth: nat)
    requires At(d, i, tag + value) && IsTag(tag, WIRE_VARINT) && OneVarint(value)
    ensures SkipFrom(d, i, depth) == SkipOn(d, i + |tag + value|, depth)
  {
    AtParts(d, i, tag, value);
    VarintAt(d, i + |tag|, value);
    SkipTag(d, i, tag, WIRE_VARINT, depth, i + |tag + value|);
  }

  lemma {:induction false} SkipFixed(d: Bytes, i: nat, tag: Bytes, wire: nat, body: Bytes, depth: nat)
    requires At(d, i, tag + body) && IsTag(tag, wire)
    requires (wire == WIRE_FIXED64 && |body| == 8) || (wire == WIRE_FIXED32 && |body| == 4)
    ensures SkipFrom(d, i, depth) == SkipOn(d, i + |tag + body|, depth)
  {
    AtParts(d, i, tag, body);
    SkipTag(d, i, tag, wire, depth, i + |tag + body|);
  }

  lemma {:induction false} SkipBytes(d: Bytes, i: nat, tag: Bytes, length: Bytes, bytes: Bytes, depth: nat)
    requires At(d, i, tag + (length + bytes)) && IsTag(tag, WIRE_BYTES) && IsLength(length, |bytes|)
    ensures SkipFrom(d, i, depth) == SkipOn(d, i + |tag + (length + bytes)|, depth)
  {
    AtParts(d, i, tag, length + bytes);
    PayloadAt(d, i + |tag|, length, bytes);
    SkipTag(d, i, tag, WIRE_BYTES, depth, i + |tag + (length + bytes)|);
  }

  /** A group: its start, what is skipped inside it, its end. */
  lemma {:induction false} SkipGroup(d: Bytes, i: nat, tag: Bytes, inside: Bytes, end: Bytes, depth: nat)
    requires At(d, i, tag + (inside + end)) && IsTag(tag, WIRE_START) && IsTag(end, WIRE_END)
    requires SkipFrom(d, i + |tag|, depth + 1) == SkipFrom(d, i + |tag| + |inside|, depth + 1)
    ensures SkipFrom(d, i, depth) == SkipOn(d, i + |tag + (inside + end)|, depth)
  {
    AtParts(d, i, tag, inside + end);
    AtParts(d, i + |tag|, inside, end);
    SkipTag(d, i, tag, WIRE_START, depth, i + |tag|);
    SkipTag(d, i + |tag| + |inside|, end, WIRE_END, depth + 1, i + |tag + (inside + end)|);
  }

  /** `skipProofs` consumes exactly one well-formed field, whatever surrounds it; inside open groups it
      goes on. */
  lemma {:induction false} SkipOne(u: Unknown, b: Bytes, d: Bytes, i: nat, depth: nat)
    requires UnknownFits(u) && b == EncodeUnknown(u) && At(d, i, b)
    ensures SkipFrom(d, i, depth) == SkipOn(d, i + |b|, depth)
    decreases u, 1
  {
    match u {
      case UnknownVarint(tag, value) => SkipVarint(d, i, tag, value, depth);
      case UnknownFixed64(tag, eight) => SkipFixed(d, i, tag, WIRE_FIXED64, eight, depth);
      case UnknownBytes(tag, length, bytes) => SkipBytes(d, i, tag, length, bytes, depth);
      case UnknownGroup(tag, fields, end) =>
        SkipNested(tag, fields, end, EncodeUnknowns(fields), d, i, depth);
      case UnknownFixed32(tag, four) => SkipFixed(d, i, tag, WIRE_FIXED32, four, depth);
    }
  }

  lemma {:induction false} SkipNested(tag: Bytes, fields: seq<Unknown>, end: Bytes, inside: Bytes,
                                      d: Bytes, i: nat, depth: nat)
    requires IsTag(tag, WIRE_START) && UnknownsFit(fields) && IsTag(end, WIRE_END)
    requires inside == EncodeUnknowns(fields) && At(d, i, tag + (inside + end))
    ensures SkipFrom(d, i, depth) == SkipOn(d, i + |tag + (inside + end)|, depth)
    decreases fields, 2
  {
    AtParts(d, i, tag, inside + end);
    AtParts(d, i + |tag|, inside, end);
    SkipMany(fields, inside, d, i + |tag|, depth + 1);
    SkipGroup(d, i, tag, inside, end, depth);
  }

  lemma {:induction false} SkipMany(us: seq<Unknown>, b: Bytes, d: Bytes, i: nat, depth: nat)
    requires UnknownsFit(us) && b == EncodeUnknowns(us) && At(d, i, b) && depth > 0
    ensures SkipFrom(d, i, depth) == SkipFrom(d, i + |b|, depth)
    decreases us, 1
  {
    if us == [] {
    } else {
      SkipHead(us, us[0], us[1..], EncodeUnknown(us[0]), EncodeUnknowns(us[1..]), d, i, depth);
    }
  }

  lemma {:induction false} SkipHead(all: seq<Unknown>, u: Unknown, us: seq<Unknown>, first: Bytes, rest: Bytes,
                                    d: Bytes, i: nat, depth: nat)
    requires all != [] && u == all[0] && us == all[1..]
    requires UnknownFits(u) && first == EncodeUnknown(u) && depth > 0
    requires UnknownsFit(us) && rest == EncodeUnknowns(us) && At(d, i, first + rest)
    ensures SkipFrom(d, i, depth) == SkipFrom(d, i + |first + rest|, depth)
    decreases all, 0
  {
    AtParts(d, i, first, rest);
    SkipOne(u, first, d, i, depth);
    SkipMany(us, rest, d, i + |first|, depth);
  }

  // ---- Known fields ------------------------------------------------------------------------------------

  function PackInts(vs: seq<int32>): Bytes {
    if vs == [] then [] else Varint(U64(vs[0])) + PackInts(vs[1..])
  }

  /** A field as the marshallers write it. */
  function EncodeItem(it: Item): Bytes {
    match it
    case IntItem(num, value) => Tag(num, WIRE_VARINT) + Varint(U64(value))
    case BytesItem(num, payload) => Tag(num, WIRE_BYTES) + (Varint(|payload|) + payload)
    case IntsItem(num, values) => Tag(num, WIRE_BYTES) + (Varint(|PackInts(values)|) + PackInts(values))
  }

  ghost predicate ItemFits(it: Item, schema: Schema) {
    && 0 < it.num < MAX_FIELD && it.num in schema
    && match it
       case IntItem(num, value) => schema[num] == IntKind
       case BytesItem(num, payload) => schema[num] == BytesKind && |payload| < MAX_LEN
       case IntsItem(num, values) => schema[num] == PackedKind && |PackInts(values)| < MAX_LEN
  }

  lemma {:induction false} WrittenVarint(v: nat)
    requires v < TWO64
    ensures OneVarint(Varint(v)) && VarintValue(Varint(v)) == v
  {
    ScanOfU64(v, Varint(v), 0);
  }

  /** A written tag is one varint with its number and wire type. */
  lemma {:induction false} WrittenTag(num: nat, wire: nat)
    requires 0 < num < MAX_FIELD && wire < 8
    ensures IsTag(Tag(num, wire), wire) && TagNumber(VarintValue(Tag(num, wire))) == num
  {
    WrittenVarint(8 * num + wire);
  }

  /** Packed 32-bit integers, negative ones included, read back exactly. */
  lemma {:induction false} PackedRoundTrip(vs: seq<int32>, d: Bytes, i: nat)
    requires At(d, i, PackInts(vs))
    ensures ReadInts(d, i, i + |PackInts(vs)|) == Ints(vs, i + |PackInts(vs)|)
    decreases |vs|
  {
    if vs == [] {
    } else {
      var h := Varint(U64(vs[0]));
      AtParts(d, i, h, PackInts(vs[1..]));
      ScanOfU64(U64(vs[0]), d, i);
      I32OfU64(vs[0]);
      PackedRoundTrip(vs[1..], d, i + |h|);
      assert [vs[0]] + vs[1..] == vs;
    }
  }

  /** Behind a known tag stands its value. */
  lemma {:induction false} KnownTag(d: Bytes, i: nat, tag: Bytes, num: nat, wire: nat, schema: Schema)
    requires At(d, i, tag) && IsTag(tag, wire) && wire != WIRE_END
    requires 0 < num == TagNumber(VarintValue(tag)) && num in schema
    ensures NextField(d, i, schema) == ReadItem(d, i + |tag|, schema[num], num, wire)
  {
    VarintAt(d, i, tag);
  }

  lemma {:induction false} IntAt(d: Bytes, i: nat, tag: Bytes, num: nat, value: Bytes, schema: Schema)
    requires At(d, i, tag + value) && IsTag(tag, WIRE_VARINT) && OneVarint(value)
    requires 0 < num == TagNumber(VarintValue(tag)) && num in schema && schema[num] == IntKind
    ensures NextField(d, i, schema) == Got(IntItem(num, I32(VarintValue(value))), i + |tag + value|)
  {
    AtParts(d, i, tag, value);
    VarintAt(d, i + |tag|, value);
    KnownTag(d, i, tag, num, WIRE_VARINT, schema);
  }

  lemma {:induction false} BytesAt(d: Bytes, i: nat, tag: Bytes, num: nat, length: Bytes, payload: Bytes,
                                   schema: Schema)
    requires At(d, i, tag + (length + payload)) && IsTag(tag, WIRE_BYTES) && IsLength(length, |payload|)
    requires 0 < num == TagNumber(VarintValue(tag)) && num in schema && schema[num] == BytesKind
    ensures NextField(d, i, schema) == Got(BytesItem(num, payload), i + |tag + (length + payload)|)
  {
    AtParts(d, i, tag, length + payload);
    PayloadAt(d, i + |tag|, length, payload);
    KnownTag(d, i, tag, num, WIRE_BYTES, schema);
  }

  lemma {:induction false} PackedAt(d: Bytes, i: nat, num: nat, from: nat, end: nat, values: seq<int32>)
    requires i <= |d| && ReadPayload(d, i) == Payload(from, end) && ReadInts(d, from, end) == Ints(values, end)
    ensures ReadItem(d, i, PackedKind, num, WIRE_BYTES) == Got(IntsItem(num, values), end)
  {
  }

  lemma {:induction false} IntsAt(d: Bytes, i: nat, tag: Bytes, num: nat, length: Bytes, values: seq<int32>,
                                  packed: Bytes, schema: Schema)
    requires At(d, i, tag + (length + packed)) && IsTag(tag, WIRE_BYTES) && IsLength(length, |packed|)
    requires packed == PackInts(values)
    requires 0 < num == TagNumber(VarintValue(tag)) && num in schema && schema[num] == PackedKind
    ensures NextField(d, i, schema) == Got(IntsItem(num, values), i + |tag + (length + packed)|)
  {
    AtParts(d, i, tag, length + packed);
    KnownTag(d, i, tag, num, WIRE_BYTES, schema);
    PackedBody(d, i + |tag|, num, length, values, packed);
  }

  lemma {:induction false} PackedBody(d: Bytes, i: nat, num: nat, length: Bytes, values: seq<int32>, packed: Bytes)
    requires At(d, i, length + packed) && IsLength(length, |packed|) && packed == PackInts(values)
    ensures ReadItem(d, i, PackedKind, num, WIRE_BYTES) == Got(IntsItem(num, values), i + |length + packed|)
  {
    AtParts(d, i, length, packed);
    PayloadAt(d, i, length, packed);
    PackedRoundTrip(values, d, i + |length|);
    PackedAt(d, i, num, i + |length|, i + |length + packed|, values);
  }

  /** A written field reads back as itself, whatever surrounds it. */
  lemma {:induction false} ItemReads(it: Item, d: Bytes, i: nat, schema: Schema)
    requires ItemFits(it, schema) && At(d, i, EncodeItem(it))
    ensures NextField(d, i, schema) == Got(it, i + |EncodeItem(it)|)
  {
    match it {
      case IntItem(num, value) =>
        WrittenTag(num, WIRE_VARINT);
        WrittenVarint(U64(value));
        I32OfU64(value);
        IntAt(d, i, Tag(num, WIRE_VARINT), num, Varint(U64(value)), schema);
      case BytesItem(num, payload) =>
        WrittenTag(num, WIRE_BYTES);
        WrittenVarint(|payload|);
        BytesAt(d, i, Tag(num, WIRE_BYTES), num, Varint(|payload|), payload, schema);
      case IntsItem(num, values) =>
        WrittenTag(num, WIRE_BYTES);
        WrittenVarint(|PackInts(values)|);
        IntsAt(d, i, Tag(num, WIRE_BYTES), num, Varint(|PackInts(values)|), values, PackInts(values), schema);
    }
  }

  lemma {:induction false} UnpackedAt(d: Bytes, i: nat, tag: Bytes, num: nat, value: Bytes, schema: Schema)
    requires At(d, i, tag + value) && IsTag(tag, WIRE_VARINT) && OneVarint(value)
    requires 0 < num == TagNumber(VarintValue(tag)) && num in schema && schema[num] == PackedKind
    ensures NextField(d, i, schema) == Got(IntsItem(num, [I32(VarintValue(value))]), i + |tag + value|)
  {
    AtParts(d, i, tag, value);
    VarintAt(d, i + |tag|, value);
    KnownTag(d, i, tag, num, WIRE_VARINT, schema);
  }

  /** One integer of a packed field, written on its own, reads back as itself. */
  lemma {:induction false} UnpackedReads(num: nat, value: int32, d: Bytes, i: nat, schema: Schema)
    requires 0 < num < MAX_FIELD && num in schema && schema[num] == PackedKind
    requires At(d, i, Tag(num, WIRE_VARINT) + Varint(U64(value)))
    ensures NextField(d, i, schema)
         == Got(IntsItem(num, [value]), i + |Tag(num, WIRE_VARINT) + Varint(U64(value))|)
  {
    WrittenTag(num, WIRE_VARINT);
    WrittenVarint(U64(value));
    I32OfU64(value);
    UnpackedAt(d, i, Tag(num, WIRE_VARINT), num, Varint(U64(value)), schema);
  }

  // ---- What is refused ---------------------------------------------------------------------------------

  lemma TagParts(n: nat, wire: nat)
    requires wire < 8
    ensures (8 * n + wire) / 8 == n && TagWire(8 * n + wire) == wire
  {
  }

  lemma I32OfWrapped(num: int32, above: nat)
    ensures I32(num % TWO32 + TWO32 * above) == num
  {
    ModShift(num % TWO32, above, TWO32);
    if num < 0 {
      ModUnique(num, -1, num + TWO32, TWO32);
    }
  }

  /** A tag's number is its bits from the third on, cut to 32 and read as signed, whatever stands above them. */
  lemma {:induction false} TagNumberOf(num: int32, above: nat, wire: nat)
    requires wire < 8
    ensures var v := 8 * (num % TWO32 + TWO32 * above) + wire; TagNumber(v) == num && TagWire(v) == wire
  {
    TagParts(num % TWO32 + TWO32 * above, wire);
    I32OfWrapped(num, above);
  }

  /** A tag with wire type 4 or without a positive number ends the parse. */
  lemma {:induction false} BadTagStops(d: Bytes, i: nat, tag: Bytes, schema: Schema)
    requires At(d, i, tag) && OneVarint(tag)
    requires TagWire(VarintValue(tag)) == 4 || TagNumber(VarintValue(tag)) <= 0
    ensures NextField(d, i, schema) == Stop
  {
    VarintAt(d, i, tag);
  }

  /** So does a known field of a wire type other than its own: 0 for integers, 2 for bytes, either for packed
      integers. */
  lemma {:induction false} WrongWireStops(d: Bytes, i: nat, tag: Bytes, schema: Schema)
    requires At(d, i, tag) && OneVarint(tag) && TagNumber(VarintValue(tag)) in schema
    requires var kind, wire := schema[TagNumber(VarintValue(tag))], TagWire(VarintValue(tag));
             !(wire == 0 && kind != BytesKind) && !(wire == 2 && kind != IntKind)
    ensures NextField(d, i, schema) == Stop
  {
    VarintAt(d, i, tag);
  }

  /** And a length that is negative as a Go int, or more than what is left. */
  lemma {:induction false} BadLengthStops(d: Bytes, i: nat, tag: Bytes, length: Bytes, schema: Schema)
    requires At(d, i, tag) && IsTag(tag, 2) && TagNumber(VarintValue(tag)) in schema
    requires At(d, i + |tag|, length) && OneVarint(length)
    requires I64(VarintValue(length)) < 0 || i + |tag| + |length| + I64(VarintValue(length)) > |d|
    ensures NextField(d, i, schema) == Stop
  {
    VarintAt(d, i, tag);
    VarintAt(d, i + |tag|, length);
  }

  /** Skipping refuses wire types 6 and 7, and the end of a group that none began. */
  lemma {:induction false} SkipRefuses(d: Bytes, i: nat, tag: Bytes, depth: nat)
    requires At(d, i, tag) && OneVarint(tag)
    requires TagWire(VarintValue(tag)) in {6, 7} || (TagWire(VarintValue(tag)) == 4 && depth == 0)
    ensures SkipFrom(d, i, depth) == None
  {
    VarintAt(d, i, tag);
    assert SkipFrom(d, i, depth) == SkipTurns(d, i, depth);
  }

  /** The other wire types by their numbers: 1 holds eight bytes and 5 four, 3 opens a group and 4 closes one. */
  lemma {:induction false} WireNumbers(d: Bytes, i: nat, depth: nat)
    requires i <= |d|
    ensures SkipPayload(d, i, 1) == if i + 8 <= |d| then Some(i + 8) else None
    ensures SkipPayload(d, i, 5) == if i + 4 <= |d| then Some(i + 4) else None
    ensures SkipPayload(d, i, 3) == Some(i) && OpenGroups(3, depth) == depth + 1
    ensures SkipPayload(d, i, 4) == Some(i) && (depth > 0 ==> OpenGroups(4, depth) == depth - 1)
  {
  }

  /** A stopped field fails the whole parse. */
  lemma {:induction false} StopFails<M>(d: Bytes, i: nat, schema: Schema, m: M, apply: (M, Item) -> Option<M>)
    requires i < |d| && NextField(d, i, schema) == Stop
    ensures ParseFrom(d, i, schema, m, apply) == None
  {
    assert ParseFrom(d, i, schema, m, apply) == ParseTurns(d, i, schema, m, apply);
  }

  /** A last packed integer that runs past its payload is read whole, and reading goes on behind it. */
  lemma {:induction false} PackedOverrun(d: Bytes, i: nat, v: nat, end: nat)
    requires v < TWO64 && At(d, i, Varint(v)) && i < end <= i + |Varint(v)|
    ensures ReadInts(d, i, end) == Ints([I32(v)], i + |Varint(v)|)
  {
    ScanOfU64(v, d, i);
  }

  // ---- Unknown fields --------------------------------------------------------------------------------------

  /** An unknown field whose number the schema does not have. */
  ghost predicate UnknownTo(u: Unknown, schema: Schema) {
    && UnknownFits(u)
    && TagNumber(VarintValue(u.tag)) > 0
    && TagNumber(VarintValue(u.tag)) !in schema
  }

  /** It is skipped whole. */
  lemma {:induction false} UnknownSkipped(u: Unknown, d: Bytes, i: nat, schema: Schema)
    requires UnknownTo(u, schema) && At(d, i, EncodeUnknown(u))
    ensures NextField(d, i, schema) == Skipped(i + |EncodeUnknown(u)|)
  {
    SkipOne(u, EncodeUnknown(u), d, i, 0);
    var body := EncodeUnknown(u)[|u.tag|..];
    assert EncodeUnknown(u) == u.tag + body;
    AtParts(d, i, u.tag, body);
    VarintAt(d, i, u.tag);
  }

  // ---- Streams -------------------------------------------------------------------------------------------

  /** Known fields, one integer of a packed field on its own among them, with unknown ones anywhere between. */
  datatype Chunk = Known(item: Item) | Loose(num: nat, value: int32) | Noise(field: Unknown)

  ghost predicate ChunkFits(ch: Chunk, schema: Schema) {
    match ch
    case Known(item) => ItemFits(item, schema)
    case Loose(num, _) => 0 < num < MAX_FIELD && num in schema && schema[num] == PackedKind
    case Noise(field) => UnknownTo(field, schema)
  }

  ghost predicate ChunksFit(s: seq<Chunk>, schema: Schema) {
    s == [] || (ChunkFits(s[0], schema) && ChunksFit(s[1..], schema))
  }

  ghost function EncodeChunk(ch: Chunk): Bytes {
    match ch
    case Known(item) => EncodeItem(item)
    case Loose(num, value) => Tag(num, WIRE_VARINT) + Varint(U64(value))
    case Noise(field) => EncodeUnknown(field)
  }

  ghost function EncodeStream(s: seq<Chunk>): Bytes {
    if s == [] then [] else EncodeChunk(s[0]) + EncodeStream(s[1..])
  }

  ghost function ChunkItem(ch: Chunk): Item
    requires !ch.Noise?
  {
    if ch.Known? then ch.item else IntsItem(ch.num, [ch.value])
  }

  ghost function KnownItems(s: seq<Chunk>): seq<Item> {
    if s == [] then []
    else if s[0].Noise? then KnownItems(s[1..])
    else [ChunkItem(s[0])] + KnownItems(s[1..])
  }

  /** Applying fields in order. */
  ghost function Fold<M>(m: M, items: seq<Item>, apply: (M, Item) -> Option<M>): Option<M> {
    if items == [] then Some(m)
    else
      match apply(m, items[0])
      case None => None
      case Some(m') => Fold(m', items[1..], apply)
  }

  lemma {:induction false} ParseKnown<M>(d: Bytes, i: nat, next: nat, item: Item, schema: Schema, m: M,
                                         apply: (M, Item) -> Option<M>)
    requires i < |d| && NextField(d, i, schema) == Got(item, next)
    ensures ParseFrom(d, i, schema, m, apply) ==
            if apply(m, item).Some? then ParseFrom(d, next, schema, apply(m, item).value, apply) else None
  {
    assert ParseFrom(d, i, schema, m, apply) == ParseTurns(d, i, schema, m, apply);
  }

  lemma {:induction false} ParseNoise<M>(d: Bytes, i: nat, next: nat, schema: Schema, m: M,
                                         apply: (M, Item) -> Option<M>)
    requires i < |d| && NextField(d, i, schema) == Skipped(next)
    ensures ParseFrom(d, i, schema, m, apply) == ParseFrom(d, next, schema, m, apply)
  {
    assert ParseFrom(d, i, schema, m, apply) == ParseTurns(d, i, schema, m, apply);
  }

  lemma {:induction false} FoldKnown<M>(item: Item, items: seq<Item>, m: M, apply: (M, Item) -> Option<M>)
    ensures Fold(m, [item] + items, apply) ==
            if apply(m, item).Some? then Fold(apply(m, item).value, items, apply) else None
  {
    assert ([item] + items)[1..] == items;
  }

  lemma {:induction false} FoldFirst<M>(m: M, items: seq<Item>, apply: (M, Item) -> Option<M>)
    requires items != [] && Fold(m, items, apply).Some?
    ensures apply(m, items[0]).Some?
    ensures Fold(m, items, apply) == Fold(apply(m, items[0]).value, items[1..], apply)
  {
  }

  /** The read loop on any well-formed stream applies exactly its known fields, in order. */
  lemma {:induction false} StreamParses<M>(s: seq<Chunk>, d: Bytes, i: nat, schema: Schema, m: M,
                                           apply: (M, Item) -> Option<M>)
    requires ChunksFit(s, schema)
    requires At(d, i, EncodeStream(s)) && i + |EncodeStream(s)| == |d|
    ensures ParseFrom(d, i, schema, m, apply) == Fold(m, KnownItems(s), apply)
    decreases |s|, 1
  {
    if s == [] {
    } else {
      match s[0] {
        case Known(_) => KnownFirst(s[0], ChunkItem(s[0]), EncodeChunk(s[0]), s[1..], d, i, schema, m, apply);
        case Loose(_, _) => KnownFirst(s[0], ChunkItem(s[0]), EncodeChunk(s[0]), s[1..], d, i, schema, m, apply);
        case Noise(field) => NoiseFirst(field, EncodeUnknown(field), s[1..], d, i, schema, m, apply);
      }
    }
  }

  lemma {:induction false} KnownFirst<M>(ch: Chunk, item: Item, b: Bytes, s: seq<Chunk>, d: Bytes, i: nat,
                                         schema: Schema, m: M, apply: (M, Item) -> Option<M>)
    requires !ch.Noise? && ChunkFits(ch, schema) && item == ChunkItem(ch) && b == EncodeChunk(ch)
    requires ChunksFit(s, schema) && At(d, i, b + EncodeStream(s)) && i + |b + EncodeStream(s)| == |d|
    ensures ParseFrom(d, i, schema, m, apply) == Fold(m, [item] + KnownItems(s), apply)
    decreases |s|, 2
  {
    AtParts(d, i, b, EncodeStream(s));
    PastKnown(ch, item, b, d, i, schema, m, apply);
    FoldKnown(item, KnownItems(s), m, apply);
    var next := apply(m, item);
    if next.Some? {
      StreamParses(s, d, i + |b|, schema, next.value, apply);
    }
  }

  lemma {:induction false} PastKnown<M>(ch: Chunk, item: Item, b: Bytes, d: Bytes, i: nat, schema: Schema, m: M,
                                        apply: (M, Item) -> Option<M>)
    requires !ch.Noise? && ChunkFits(ch, schema) && item == ChunkItem(ch) && b == EncodeChunk(ch) && At(d, i, b)
    ensures ParseFrom(d, i, schema, m, apply) ==
            if apply(m, item).Some? then ParseFrom(d, i + |b|, schema, apply(m, item).value, apply) else None
  {
    ChunkReads(ch, b, d, i, schema);
    ParseKnown(d, i, i + |b|, item, schema, m, apply);
  }

  lemma {:induction false} ChunkReads(ch: Chunk, b: Bytes, d: Bytes, i: nat, schema: Schema)
    requires !ch.Noise? && ChunkFits(ch, schema) && b == EncodeChunk(ch) && At(d, i, b)
    ensures NextField(d, i, schema) == Got(ChunkItem(ch), i + |b|)
  {
    match ch {
      case Known(item) => ItemReads(item, d, i, schema);
      case Loose(num, value) => UnpackedReads(num, value, d, i, schema);
    }
  }

  lemma {:induction false} NoiseFirst<M>(field: Unknown, b: Bytes, s: seq<Chunk>, d: Bytes, i: nat, schema: Schema,
                                         m: M, apply: (M, Item) -> Option<M>)
    requires UnknownTo(field, schema) && b == EncodeUnknown(field) && ChunksFit(s, schema)
    requires At(d, i, b + EncodeStream(s)) && i + |b + EncodeStream(s)| == |d|
    ensures ParseFrom(d, i, schema, m, apply) == Fold(m, KnownItems(s), apply)
    decreases |s|, 2
  {
    AtParts(d, i, b, EncodeStream(s));
    PastNoise(field, b, d, i, schema, m, apply);
    StreamParses(s, d, i + |b|, schema, m, apply);
  }

  lemma {:induction false} PastNoise<M>(field: Unknown, b: Bytes, d: Bytes, i: nat, schema: Schema, m: M,
                                        apply: (M, Item) -> Option<M>)
    requires UnknownTo(field, schema) && b == EncodeUnknown(field) && At(d, i, b)
    ensures ParseFrom(d, i, schema, m, apply) == ParseFrom(d, i + |b|, schema, m, apply)
  {
    UnknownSkipped(field, d, i, schema);
    ParseNoise(d, i, i + |b|, schema, m, apply);
  }

  /** Unknown-field tolerance, for every message: streams with the same known fields parse alike, whatever
      unknown fields stand between them. */
  lemma {:induction false} NoiseIsInvisible<M>(s: seq<Chunk>, t: seq<Chunk>, schema: Schema, m: M,
                                               apply: (M, Item) -> Option<M>)
    requires ChunksFit(s, schema) && ChunksFit(t, schema)
    requires KnownItems(s) == KnownItems(t)
    ensures ParseFrom(EncodeStream(s), 0, schema, m, apply) == ParseFrom(EncodeStream(t), 0, schema, m, apply)
  {
    StreamParses(s, EncodeStream(s), 0, schema, m, apply);
    StreamParses(t, EncodeStream(t), 0, schema, m, apply);
  }

  // ---- Messages without unknown fields -----------------------------------------------------------------

  function EncodeItems(items: seq<Item>): Bytes {
    if items == [] then [] else EncodeItem(items[0]) + EncodeItems(items[1..])
  }

  ghost predicate ItemsFit(items: seq<Item>, schema: Schema) {
    items == [] || (ItemFits(items[0], schema) && ItemsFit(items[1..], schema))
  }

  ghost function Plain(items: seq<Item>): seq<Chunk> {
    if items == [] then [] else [Known(items[0])] + Plain(items[1..])
  }

  lemma {:induction false} PlainStream(items: seq<Item>, schema: Schema)
    requires ItemsFit(items, schema)
    ensures ChunksFit(Plain(items), schema)
    ensures KnownItems(Plain(items)) == items && EncodeStream(Plain(items)) == EncodeItems(items)
  {
    if items == [] {
    } else {
      PlainStream(items[1..], schema);
      assert Plain(items)[1..] == Plain(items[1..]);
      assert [items[0]] + items[1..] == items;
    }
  }

  /** What the marshallers write, the read loop applies field by field. */
  lemma {:induction false} ItemsParse<M>(items: seq<Item>, schema: Schema, m: M, apply: (M, Item) -> Option<M>)
    requires ItemsFit(items, schema)
    ensures ParseFrom(EncodeItems(items), 0, schema, m, apply) == Fold(m, items, apply)
  {
    PlainStream(items, schema);
    StreamParses(Plain(items), EncodeItems(items), 0, schema, m, apply);
  }

  lemma {:induction false} ItemsAppend(a: seq<Item>, b: seq<Item>)
    ensures EncodeItems(a + b) == EncodeItems(a) + EncodeItems(b)
  {
    if a == [] {
      assert a + b == b;
    } else {
      assert (a + b)[1..] == a[1..] + b;
      ItemsAppend(a[1..], b);
    }
  }

  lemma {:induction false} FitAppend(a: seq<Item>, b: seq<Item>, schema: Schema)
    requires ItemsFit(a, schema) && ItemsFit(b, schema)
    ensures ItemsFit(a + b, schema)
  {
    if a == [] {
      assert a + b == b;
    } else {
      assert (a + b)[1..] == a[1..] + b;
      FitAppend(a[1..], b, schema);
    }
  }

  lemma {:induction false} FoldAppend<M>(m: M, a: seq<Item>, b: seq<Item>, apply: (M, Item) -> Option<M>)
    requires Fold(m, a, apply).Some?
    ensures Fold(m, a + b, apply) == Fold(Fold(m, a, apply).value, b, apply)
  {
    if a == [] {
      assert a + b == b;
    } else {
      assert (a + b)[1..] == a[1..] + b;
      FoldAppend(apply(m, a[0]).value, a[1..], b, apply);
    }
  }
}
