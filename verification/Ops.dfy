/** rust/src/ops.rs: applying leaf and inner ops, and when a leaf preimage can be read back. */
module Ops {
  import opened Bytes
  import opened Varints
  import opened Ics23

  type Digest20 = b: Bytes | |b| == 20 witness seq(20, i => 0)
  type Digest32 = b: Bytes | |b| == 32 witness seq(32, i => 0)
  type Digest64 = b: Bytes | |b| == 64 witness seq(64, i => 0)

  /** HostFunctionsProvider: any functions with these output lengths. Nothing is assumed injective. */
  datatype Host = Host(sha2_256: Bytes -> Digest32, sha2_512: Bytes -> Digest64,
                       sha2_512_truncated: Bytes -> Digest32, keccak_256: Bytes -> Digest32,
                       ripemd160: Bytes -> Digest20, blake2b_512: Bytes -> Digest64,
                       blake2s_256: Bytes -> Digest32, blake3: Bytes -> Digest32)

  /** `do_hash`; an op number outside the enumeration reads as its default, NO_HASH. */
  function DoHash(host: Host, op: int32, data: Bytes): Bytes {
    if op == SHA256 then host.sha2_256(data)
    else if op == SHA512 then host.sha2_512(data)
    else if op == KECCAK256 then host.keccak_256(data)
    else if op == RIPEMD160 then host.ripemd160(data)
    else if op == BITCOIN then host.ripemd160(host.sha2_256(data))
    else if op == SHA512_256 then host.sha2_512_truncated(data)
    else if op == BLAKE2B_512 then host.blake2b_512(data)
    else if op == BLAKE2S_256 then host.blake2s_256(data)
    else if op == BLAKE3 then host.blake3(data)
    else data
  }

  /** The numbers of proofs.proto and the functions behind them; any other number leaves the data alone. */
  lemma HashNumbers(host: Host, op: int32, data: Bytes)
    ensures DoHash(host, 1, data) == host.sha2_256(data) && DoHash(host, 2, data) == host.sha2_512(data)
    ensures DoHash(host, 3, data) == host.keccak_256(data) && DoHash(host, 4, data) == host.ripemd160(data)
    ensures DoHash(host, 5, data) == host.ripemd160(host.sha2_256(data))
    ensures DoHash(host, 6, data) == host.sha2_512_truncated(data)
    ensures DoHash(host, 7, data) == host.blake2b_512(data) && DoHash(host, 8, data) == host.blake2s_256(data)
    ensures DoHash(host, 9, data) == host.blake3(data)
    ensures !(1 <= op <= 9) ==> DoHash(host, op, data) == data
  {
  }

  /** The output length of a hash op, 0 for the ops that return their input. */
  function DigestLength(op: int32): nat {
    if op in {SHA512, BLAKE2B_512} then 64
    else if op in {RIPEMD160, BITCOIN} then 20
    else if op in {SHA256, KECCAK256, SHA512_256, BLAKE2S_256, BLAKE3} then 32
    else 0
  }

  lemma DigestHasLength(host: Host, op: int32, data: Bytes)
    ensures DigestLength(op) > 0 ==> |DoHash(host, op, data)| == DigestLength(op)
    ensures DigestLength(op) == 0 ==> DoHash(host, op, data) == data
  {
  }

  function BigEndian(n: nat, width: nat): (r: Bytes)
    ensures |r| == width
  {
    if width == 0 then [] else BigEndian(n / 256, width - 1) + [n % 256]
  }

  function LittleEndian(n: nat, width: nat): (r: Bytes)
    ensures |r| == width
  {
    if width == 0 then [] else [n % 256] + LittleEndian(n / 256, width - 1)
  }

  function Pow256(n: nat): (p: nat)
    ensures p > 0
  {
    if n == 0 then 1 else 256 * Pow256(n - 1)
  }

  /** The most significant byte first. */
  lemma {:induction false} BigEndianAt(n: nat, width: nat, i: nat)
    requires i < width
    ensures BigEndian(n, width)[i] == n / Pow256(width - 1 - i) % 256
  {
    if i < width - 1 {
      BigEndianAt(n / 256, width - 1, i);
      DivTwice(n, 256, Pow256(width - 2 - i));
    } else {
      assert Pow256(0) == 1;
    }
  }

  /** The least significant byte first. */
  lemma {:induction false} LittleEndianAt(n: nat, width: nat, i: nat)
    requires i < width
    ensures LittleEndian(n, width)[i] == n / Pow256(i) % 256
  {
    if i > 0 {
      LittleEndianAt(n / 256, width - 1, i - 1);
      DivTwice(n, 256, Pow256(i - 1));
    } else {
      assert Pow256(0) == 1;
    }
  }

  lemma {:induction false} BigEndianInjective(n: nat, m: nat, width: nat)
    requires n < Pow256(width) && m < Pow256(width)
    requires BigEndian(n, width) == BigEndian(m, width)
    ensures n == m
  {
    if width == 0 {
    } else {
      var b, c := BigEndian(n / 256, width - 1), BigEndian(m / 256, width - 1);
      SplitEqual(b, [n % 256], c, [m % 256]);
      assert [n % 256][0] == [m % 256][0];
      BigEndianInjective(n / 256, m / 256, width - 1);
    }
  }

  lemma {:induction false} LittleEndianInjective(n: nat, m: nat, width: nat)
    requires n < Pow256(width) && m < Pow256(width)
    requires LittleEndian(n, width) == LittleEndian(m, width)
    ensures n == m
  {
    if width == 0 {
    } else {
      var b, c := LittleEndian(n / 256, width - 1), LittleEndian(m / 256, width - 1);
      SplitEqual([n % 256], b, [m % 256], c);
      assert [n % 256][0] == [m % 256][0];
      LittleEndianInjective(n / 256, m / 256, width - 1);
    }
  }

  /** The bytes `do_length` puts before data of length `n`; the fixed widths truncate `n`. */
  function LengthHeader(op: int32, n: nat): Bytes {
    if op == VAR_PROTO then Varint(n)
    else if op == FIXED32_BIG || op == FIXED64_BIG then BigEndian(n % Pow256(Width(op)), Width(op))
    else if op == FIXED32_LITTLE || op == FIXED64_LITTLE then LittleEndian(n % Pow256(Width(op)), Width(op))
    else []
  }

  /** The bytes of the fixed-width length: `n as u32` and `n as u64` keep this many. */
  function Width(op: int32): nat {
    if op == FIXED32_BIG || op == FIXED32_LITTLE then 4 else 8
  }

  /** The fixed-width length headers, byte by byte: four or eight bytes, big-endian or little-endian. */
  lemma HeaderBytes(op: int32, n: nat, i: nat)
    requires FIXED32_BIG <= op <= FIXED64_LITTLE && n < Pow256(Width(op)) && i < Width(op)
    ensures |LengthHeader(op, n)| == if op <= FIXED32_LITTLE then 4 else 8
    ensures LengthHeader(op, n)[i]
         == n / Pow256(if op == FIXED32_BIG || op == FIXED64_BIG then Width(op) - 1 - i else i) % 256
  {
    ModUnique(n, 0, n, Pow256(Width(op)));
    BigEndianAt(n, Width(op), i);
    LittleEndianAt(n, Width(op), i);
  }

  /** `do_length`. */
  function DoLength(op: int32, data: Bytes): Option<Bytes> {
    if op == VAR_RLP
       || (op == REQUIRE_32_BYTES && |data| != 32)
       || (op == REQUIRE_64_BYTES && |data| != 64) then None
    else Some(LengthHeader(op, |data|) + data)
  }

  /** A VAR_PROTO header reads back as the length, whatever follows. */
  lemma VarProtoHeaderReads(n: nat, rest: Bytes)
    requires n < TWO64
    ensures var header := LengthHeader(VAR_PROTO, n);
            ScanAt(header + rest, 0, MAX_VARINT) == Scanned(n, |header|)
  {
    var header := LengthHeader(VAR_PROTO, n);
    assert At(header + rest, 0, header);
    ScanOfU64(n, header + rest, 0);
  }

  /** The length ops by their numbers in proofs.proto: what is refused, and what is written without a fixed-width
      header. */
  lemma LengthNumbers(op: int32, data: Bytes)
    ensures DoLength(op, data) == None <==> op == 2 || (op == 7 && |data| != 32) || (op == 8 && |data| != 64)
    ensures DoLength(op, data).Some? && !(op == 1 || 3 <= op <= 6) ==> DoLength(op, data) == Some(data)
    ensures op == 1 ==> DoLength(op, data) == Some(Varint(|data|) + data)
  {
    assert [] + data == data;
  }

  /** The fixed-width ones: four bytes for 3 and 4, eight for 5 and 6, the odd ones big-endian. */
  lemma FixedLengthNumbers(op: int32, data: Bytes, width: nat)
    requires 3 <= op <= 6 && width == (if op <= 4 then 4 else 8) && |data| < Pow256(width)
    ensures DoLength(op, data)
         == Some((if op == 3 || op == 5 then BigEndian(|data|, width) else LittleEndian(|data|, width)) + data)
  {
    ModUnique(|data|, 0, |data|, Pow256(width));
  }

  /** `prepare_leaf_data`. */
  function PrepareLeafData(host: Host, prehash: int32, length: int32, data: Bytes): Option<Bytes> {
    if data == [] then None else DoLength(length, DoHash(host, prehash, data))
  }

  /** The bytes `apply_leaf` hashes. */
  function LeafImage(host: Host, leaf: LeafOp, key: Bytes, value: Bytes): Option<Bytes> {
    match PrepareLeafData(host, leaf.prehashKey, leaf.length, key)
    case None => None
    case Some(k) =>
      match PrepareLeafData(host, leaf.prehashValue, leaf.length, value)
      case None => None
      case Some(v) => Some(leaf.prefix + k + v)
  }

  /** `apply_leaf`. */
  function ApplyLeaf(host: Host, leaf: LeafOp, key: Bytes, value: Bytes): Option<Bytes> {
    match LeafImage(host, leaf, key, value)
    case None => None
    case Some(image) => Some(DoHash(host, leaf.hash, image))
  }

  function InnerImage(inner: InnerOp, child: Bytes): Bytes {
    inner.prefix + child + inner.suffix
  }

  /** `apply_inner`. */
  function ApplyInner(host: Host, inner: InnerOp, child: Bytes): Option<Bytes> {
    if child == [] then None else Some(DoHash(host, inner.hash, InnerImage(inner, child)))
  }

  // ---- Reading a length-prefixed field back -------------------------------------------------------

  /** The encoding itself says where data of length `n` ends: the fixed widths up to what they can count. */
  predicate Delimits(op: int32, n: nat) {
    || op == VAR_PROTO || op == REQUIRE_32_BYTES || op == REQUIRE_64_BYTES
    || ((op == FIXED32_BIG || op == FIXED32_LITTLE) && n < TWO32)
    || ((op == FIXED64_BIG || op == FIXED64_LITTLE) && n < TWO64)
  }

  /** What the fixed widths can count. */
  lemma WordWidths(op: int32)
    ensures Pow256(Width(op)) == if op == FIXED32_BIG || op == FIXED32_LITTLE then TWO32 else TWO64
  {
    assert Pow256(4) == TWO32;
    assert Pow256(8) == TWO64;
  }

  lemma BigEndianPrefixFree(n: nat, m: nat, width: nat, s: Bytes, t: Bytes)
    requires n < Pow256(width) && m < Pow256(width)
    requires BigEndian(n, width) + s == BigEndian(m, width) + t
    ensures n == m
  {
    SplitEqual(BigEndian(n, width), s, BigEndian(m, width), t);
    BigEndianInjective(n, m, width);
  }

  lemma LittleEndianPrefixFree(n: nat, m: nat, width: nat, s: Bytes, t: Bytes)
    requires n < Pow256(width) && m < Pow256(width)
    requires LittleEndian(n, width) + s == LittleEndian(m, width) + t
    ensures n == m
  {
    SplitEqual(LittleEndian(n, width), s, LittleEndian(m, width), t);
    LittleEndianInjective(n, m, width);
  }

  /** Length headers are prefix-free below the width's limit. */
  lemma HeaderPrefixFree(op: int32, n: nat, m: nat, s: Bytes, t: Bytes)
    requires Delimits(op, n) && Delimits(op, m) && op != REQUIRE_32_BYTES && op != REQUIRE_64_BYTES
    requires LengthHeader(op, n) + s == LengthHeader(op, m) + t
    ensures n == m
  {
    if op == VAR_PROTO {
      VarintPrefixFree(n, s, m, t);
    } else {
      var w := Width(op);
      WordWidths(op);
      ModUnique(n, 0, n, Pow256(w));
      ModUnique(m, 0, m, Pow256(w));
      if op == FIXED32_BIG || op == FIXED64_BIG {
        BigEndianPrefixFree(n, m, w, s, t);
      } else {
        LittleEndianPrefixFree(n, m, w, s, t);
      }
    }
  }

  lemma SameSizeReadable(op: int32, x: Bytes, y: Bytes, s: Bytes, t: Bytes)
    requires |x| == |y| && LengthHeader(op, |x|) + x + s == LengthHeader(op, |y|) + y + t
    ensures x == y && s == t
  {
    SplitEqual3(LengthHeader(op, |x|), x, s, LengthHeader(op, |y|), y, t);
  }

  lemma SizesReadable(op: int32, x: Bytes, y: Bytes, s: Bytes, t: Bytes)
    requires Delimits(op, |x|) && Delimits(op, |y|) && op != REQUIRE_32_BYTES && op != REQUIRE_64_BYTES
    requires LengthHeader(op, |x|) + x + s == LengthHeader(op, |y|) + y + t
    ensures |x| == |y|
  {
    Assoc(LengthHeader(op, |x|), x, s);
    Assoc(LengthHeader(op, |y|), y, t);
    HeaderPrefixFree(op, |x|, |y|, x + s, y + t);
  }

  /** A length-encoded field followed by anything splits in one way only, when its end is marked or
      both fields are known to have one size. */
  lemma FieldReadable(op: int32, x: Bytes, y: Bytes, s: Bytes, t: Bytes)
    requires DoLength(op, x).Some? && DoLength(op, y).Some?
    requires DoLength(op, x).value + s == DoLength(op, y).value + t
    requires (Delimits(op, |x|) && Delimits(op, |y|)) || |x| == |y|
    ensures x == y && s == t
  {
    if |x| != |y| {
      SizesReadable(op, x, y, s, t);
    } else {
      SameSizeReadable(op, x, y, s, t);
    }
  }
}
