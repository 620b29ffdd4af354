/**
  The block format of the ledger: the fixed 187-byte encoding of a block,
  its content hash, the proof-of-work test and search, and signing.

  SHA-256 is not modelled: every member that hashes takes the digest
  function `sha` as a parameter, so each property below holds for any
  function from byte strings to 32-byte digests.
 */
module Blocks {
  import opened Bits

  /** Size of a SHA-256 digest, and of each header field. */
  const HashSize := 32
  /** Size of the DER (PKIX) encoding of a P-256 public key, the Owner field. */
  const OwnerSize := 91
  const PrevOffset := 0
  const NonceOffset := 32
  const RootOffset := 64
  const OwnerOffset := 96
  /** Size of an encoded block: three header fields and the owner, no framing. */
  const BlockSize := 3 * HashSize + OwnerSize
  /** Minimum number of leading zero bits a block hash needs. */
  const ProofOfWorkDifficulty := 9
  /** Size of the random buffer hashed into each candidate nonce. */
  const EntropySize := 512

  type Bytes = seq<byte>
  type Digest = s: Bytes | |s| == HashSize witness seq(32, _ => 0 as byte)
  type OwnerKey = s: Bytes | |s| == OwnerSize witness seq(91, _ => 0 as byte)
  type EntropyBuffer = s: Bytes | |s| == EntropySize witness seq(512, _ => 0 as byte)

  datatype Option<T> = None | Some(value: T)
  datatype Result<T, E> = Ok(value: T) | Err(error: E)

  datatype Header = Header(prev: Digest, nonce: Digest, root: Digest)
  datatype Block = Block(header: Header, owner: OwnerKey)

  /** What `io.ReadFull` reports when the input ends before a whole block. */
  datatype DecodeError = EOF | UnexpectedEOF

  // ---------------------------------------------------------------- codec

  /** The byte image of a block: Prev, Nonce, Root, Owner, back to back. */
  function Encode(b: Block): (bin: Bytes)
    ensures |bin| == BlockSize
    ensures bin[PrevOffset..NonceOffset] == b.header.prev
    ensures bin[NonceOffset..RootOffset] == b.header.nonce
    ensures bin[RootOffset..OwnerOffset] == b.header.root
    ensures bin[OwnerOffset..] == b.owner
  {
    b.header.prev + b.header.nonce + b.header.root + b.owner
  }

  /**
    Reads one block from the front of `data`. No input fails with EOF,
    input shorter than a block with UnexpectedEOF; bytes after the first
    BlockSize are not read.
   */
  function DecodeBlock(data: Bytes): (r: Result<Block, DecodeError>)
    ensures r.Ok? <==> |data| >= BlockSize
    ensures |data| == 0 ==> r == Err(EOF)
    ensures 0 < |data| < BlockSize ==> r == Err(UnexpectedEOF)
    ensures r.Ok? ==> Encode(r.value) == data[..BlockSize]
  {
    if |data| == 0 then Err(EOF)
    else if |data| < BlockSize then Err(UnexpectedEOF)
    else
      Ok(Block(Header(data[PrevOffset..NonceOffset], data[NonceOffset..RootOffset],
                      data[RootOffset..OwnerOffset]),
               data[OwnerOffset..BlockSize]))
  }

  lemma DecodeEncode(b: Block)
    ensures DecodeBlock(Encode(b)) == Ok(b)
  {
    var bin := Encode(b);
    assert bin[OwnerOffset..BlockSize] == bin[OwnerOffset..];
  }

  lemma DecodeIgnoresTrailingBytes(data: Bytes, extra: Bytes)
    requires |data| >= BlockSize
    ensures DecodeBlock(data + extra) == DecodeBlock(data)
  {
    assert (data + extra)[..BlockSize] == data[..BlockSize];
  }

  lemma EncodeInjective(b1: Block, b2: Block)
    requires Encode(b1) == Encode(b2)
    ensures b1 == b2
  {
    DecodeEncode(b1);
    DecodeEncode(b2);
  }

  // ---------------------------------------------------------------- hash

  /** The content hash: the digest of the block's encoding. */
  function Hash(sha: Bytes -> Digest, b: Block): (d: Digest)
  {
    sha(Encode(b))
  }

  /** Two different blocks share a hash only through a collision of the digest itself. */
  lemma HashCollisionIsDigestCollision(sha: Bytes -> Digest, b1: Block, b2: Block)
    requires b1 != b2 && Hash(sha, b1) == Hash(sha, b2)
    ensures Encode(b1) != Encode(b2) && sha(Encode(b1)) == sha(Encode(b2))
  {
    if Encode(b1) == Encode(b2) {
      EncodeInjective(b1, b2);
    }
  }

  // ---------------------------------------------------------------- proof of work

  /**
    Leading zero bits of a digest, byte by byte from the front: 8 for each
    zero byte, then the leading zeros of the first non-zero byte.
   */
  function LeadingZeroBits(h: Bytes): (c: nat)
    ensures c <= 8 * |h|
  {
    if h == [] then 0
    else if h[0] == 0 then 8 + LeadingZeroBits(h[1..])
    else LeadingZeros8(h[0])
  }

  /**
    `LeadingZeroBits(h)` is the number of leading zero bits of `h` read as a
    big-endian number of 8|h| bits: the value is below 2^(8|h| - c), and,
    unless every bit is zero, at least 2^(8|h| - 1 - c).
   */
  lemma {:induction false} LeadingZeroBitsIsBigEndianCount(h: Bytes)
    ensures BigEndian(h) < Pow2(8 * |h| - LeadingZeroBits(h))
    ensures LeadingZeroBits(h) < 8 * |h| ==> Pow2(8 * |h| - 1 - LeadingZeroBits(h)) <= BigEndian(h)
  {
    if h != [] {
      if h[0] == 0 {
        var t := h[1..];
        assert h == [0] + t;
        BigEndianZeroLead(t);
        LeadingZeroBitsIsBigEndianCount(t);
        assert 8 * |h| - LeadingZeroBits(h) == 8 * |t| - LeadingZeroBits(t);
      } else {
        NonZeroLeadBounds(h);
      }
    }
  }

  /** The case of a non-zero first byte: the count is that byte's leading zeros. */
  lemma NonZeroLeadBounds(h: Bytes)
    requires h != [] && h[0] != 0
    ensures BigEndian(h) < Pow2(8 * |h| - LeadingZeroBits(h))
    ensures Pow2(8 * |h| - 1 - LeadingZeroBits(h)) <= BigEndian(h)
  {
    var n := LeadingZeros8(h[0]);
    assert LeadingZeroBits(h) == n;
    BigEndianLeadBounds(h, 7 - n, 8 - n);
    assert 8 - n + 8 * (|h| - 1) == 8 * |h| - n;
    assert 7 - n + 8 * (|h| - 1) == 8 * |h| - 1 - n;
  }

  /** A digest has at least `d` leading zero bits exactly when its value is below 2^(8|h| - d). */
  lemma ThresholdIsValueBound(h: Bytes, d: nat)
    requires d <= 8 * |h|
    ensures LeadingZeroBits(h) >= d <==> BigEndian(h) < Pow2(8 * |h| - d)
  {
    LeadingZeroBitsIsBigEndianCount(h);
    var c := LeadingZeroBits(h);
    if c >= d {
      Pow2Monotone(8 * |h| - c, 8 * |h| - d);
    } else {
      Pow2Monotone(8 * |h| - d, 8 * |h| - 1 - c);
    }
  }

  /** Once a non-zero byte has been read, the bytes after it do not affect the count. */
  lemma {:induction false} LaterBytesUnread(p: Bytes, t1: Bytes, t2: Bytes)
    requires p != [] && p[|p| - 1] != 0
    ensures LeadingZeroBits(p + t1) == LeadingZeroBits(p + t2)
  {
    if p[0] == 0 {
      assert (p + t1)[1..] == p[1..] + t1;
      assert (p + t2)[1..] == p[1..] + t2;
      LaterBytesUnread(p[1..], t1, t2);
    }
  }

  /** The worked example: two zero bytes and then 0001_1111 give 8 + 8 + 3 bits. */
  lemma LeadingZeroBitsExample(t: Bytes)
    ensures LeadingZeroBits([0, 0, 0x1F] + t) == 19
  {
    var h: Bytes := [0, 0, 0x1F] + t;
    assert h[0] == 0 && h[1..][0] == 0;
    assert h[1..][1..] == [0x1F] + t;
    assert LeadingZeroBits([0x1F] + t) == 3;
  }

  /** The block's hash has at least ProofOfWorkDifficulty leading zero bits. */
  predicate ProofOfWork(sha: Bytes -> Digest, b: Block): (p: bool)
    ensures p ==> Hash(sha, b)[0] == 0
  {
    LeadingZeroBits(Hash(sha, b)) >= ProofOfWorkDifficulty
  }

  /** Proof of work means the hash, as a 256-bit big-endian number, is below 2^247. */
  lemma ProofOfWorkIsHashBelowTarget(sha: Bytes -> Digest, b: Block)
    ensures ProofOfWork(sha, b) <==> BigEndian(Hash(sha, b)) < Pow2(8 * HashSize - ProofOfWorkDifficulty)
  {
    ThresholdIsValueBound(Hash(sha, b), ProofOfWorkDifficulty);
  }

  /** A hash whose first byte is not zero has at most 7 leading zero bits and is rejected. */
  lemma NonZeroFirstByteRejected(sha: Bytes -> Digest, b: Block)
    requires Hash(sha, b)[0] != 0
    ensures LeadingZeroBits(Hash(sha, b)) <= 7 && !ProofOfWork(sha, b)
  {
  }

  /**
    Hashes the block and counts the leading zero bits of the digest byte by
    byte, stopping at the first byte that is not zero; accepts when the
    count reaches ProofOfWorkDifficulty.
   */
  method Validate(sha: Bytes -> Digest, b: Block) returns (ok: bool)
    ensures ok <==> ProofOfWork(sha, b)
    ensures ok ==> Hash(sha, b)[0] == 0
  {
    var h := Hash(sha, b);
    var c := 0;
    var k := 0;
    while k < |h|
      invariant 0 <= k <= |h|
      invariant c + LeadingZeroBits(h[k..]) == LeadingZeroBits(h)
    {
      assert h[k..][1..] == h[k + 1..];
      var i := LeadingZeros8(h[k]);
      c := c + i;
      if i != 8 {
        break;
      }
      k := k + 1;
    }
    ok := c >= ProofOfWorkDifficulty;
  }

  // ---------------------------------------------------------------- nonce search

  /** One call of the random source: a full buffer, or a failure. */
  datatype Draw = Read(buf: EntropyBuffer) | ReadFailed

  datatype SearchError = RandomReadFailed | DrawsExhausted

  datatype SearchResult = SearchResult(block: Block, error: Option<SearchError>)

  /** The block with its nonce replaced and every other field kept. */
  function WithNonce(b: Block, nonce: Digest): (r: Block)
    ensures r.header.nonce == nonce
    ensures r.header.prev == b.header.prev && r.header.root == b.header.root && r.owner == b.owner
  {
    b.(header := b.header.(nonce := nonce))
  }

  /**
    The nonce search over a given sequence of random draws: each draw is
    hashed into the nonce and the block re-validated, until one validates,
    a read fails, or the draws run out.
   */
  function NonceSearch(sha: Bytes -> Digest, b: Block, draws: seq<Draw>): (r: SearchResult)
    ensures r.block.header.prev == b.header.prev
    ensures r.block.header.root == b.header.root
    ensures r.block.owner == b.owner
    ensures r.error.None? ==> ProofOfWork(sha, r.block)
    ensures r.error == Some(RandomReadFailed) ==> ReadFailed in draws
    ensures r.error == Some(DrawsExhausted) ==> ReadFailed !in draws
    decreases |draws|
  {
    if draws == [] then SearchResult(b, Some(DrawsExhausted))
    else match draws[0]
      case ReadFailed => SearchResult(b, Some(RandomReadFailed))
      case Read(buf) =>
        var next := WithNonce(b, sha(buf));
        if ProofOfWork(sha, next) then SearchResult(next, None)
        else
          var r := NonceSearch(sha, next, draws[1..]);
          assert forall d :: d in draws[1..] ==> d in draws;
          r
  }

  /**
    The search stops at the first draw whose nonce gives proof of work, and
    the block it returns carries that nonce.
   */
  lemma {:induction false} SearchStopsAtFirstValidNonce(sha: Bytes -> Digest, b: Block, draws: seq<Draw>, k: nat)
    requires k < |draws|
    requires forall i :: 0 <= i <= k ==> draws[i].Read?
    requires forall i :: 0 <= i < k ==> !ProofOfWork(sha, WithNonce(b, sha(draws[i].buf)))
    requires ProofOfWork(sha, WithNonce(b, sha(draws[k].buf)))
    ensures NonceSearch(sha, b, draws) == SearchResult(WithNonce(b, sha(draws[k].buf)), None)
    decreases k
  {
    if k > 0 {
      var next := WithNonce(b, sha(draws[0].buf));
      forall n: Digest ensures WithNonce(next, n) == WithNonce(b, n) {
      }
      SearchStopsAtFirstValidNonce(sha, next, draws[1..], k - 1);
    }
  }

  // ---------------------------------------------------------------- blocks updated in place

  /** What the public key looks like after conversion to ECDH and PKIX DER encoding. */
  datatype PublicKeyExport = EcdhRejected | PkixRejected | Pkix(der: Bytes)

  /**
    How signing ended. The last two are the run-time panics of converting a
    byte slice shorter than the field it is copied into.
   */
  datatype SignOutcome =
    | Signed
    | CannotSign
    | CannotConvertToEcdh
    | CannotEncodePublicKey
    | SignatureTooShort
    | PublicKeyTooShort

  /** A block reached through a pointer, whose fields are updated in place. */
  class BlockRef {
    var header: Header
    var owner: OwnerKey

    constructor (b: Block)
      ensures Value() == b
    {
      header := b.header;
      owner := b.owner;
    }

    function Value(): (v: Block)
      reads this
    {
      Block(header, owner)
    }

    /**
      Signs the current Prev with `signer` (ECDSA with the caller's key),
      then overwrites Prev with the first 32 bytes of the signature and
      Owner with the first 91 bytes of the exported public key. A failure
      after the signature leaves Prev already overwritten.
     */
    method Sign(signer: Bytes -> Option<Bytes>, publicKey: PublicKeyExport) returns (outcome: SignOutcome)
      modifies this
      ensures header.nonce == old(header.nonce) && header.root == old(header.root)
      ensures var sig := signer(old(header.prev));
        if sig.None? then
          outcome == CannotSign && header == old(header) && owner == old(owner)
        else if |sig.value| < HashSize then
          outcome == SignatureTooShort && header == old(header) && owner == old(owner)
        else
          header.prev == sig.value[..HashSize] &&
          match publicKey
          case EcdhRejected => outcome == CannotConvertToEcdh && owner == old(owner)
          case PkixRejected => outcome == CannotEncodePublicKey && owner == old(owner)
          case Pkix(der) =>
            if |der| < OwnerSize then outcome == PublicKeyTooShort && owner == old(owner)
            else outcome == Signed && owner == der[..OwnerSize]
    {
      var sig := signer(header.prev);
      if sig.None? {
        return CannotSign;
      }
      if |sig.value| < HashSize {
        return SignatureTooShort;
      }
      header := header.(prev := sig.value[..HashSize]);
      match publicKey
      case EcdhRejected =>
        return CannotConvertToEcdh;
      case PkixRejected =>
        return CannotEncodePublicKey;
      case Pkix(der) =>
        if |der| < OwnerSize {
          return PublicKeyTooShort;
        }
        owner := der[..OwnerSize];
        return Signed;
    }
  }

  /**
    Draws random buffers, hashes each into the block's nonce and validates,
    until the block validates or the random source fails; the block is
    updated in place.
   */
  method GenerateValideHash(sha: Bytes -> Digest, draws: seq<Draw>, b: BlockRef) returns (err: Option<SearchError>)
    modifies b
    ensures SearchResult(b.Value(), err) == NonceSearch(sha, old(b.Value()), draws)
    ensures err.None? ==> ProofOfWork(sha, b.Value())
    ensures b.header.prev == old(b.header.prev) && b.header.root == old(b.header.root)
    ensures b.owner == old(b.owner)
  {
    var i := 0;
    while i < |draws|
      invariant 0 <= i <= |draws|
      invariant NonceSearch(sha, old(b.Value()), draws) == NonceSearch(sha, b.Value(), draws[i..])
    {
      assert draws[i..][1..] == draws[i + 1..];
      match draws[i]
      case ReadFailed =>
        return Some(RandomReadFailed);
      case Read(buf) =>
        b.header := b.header.(nonce := sha(buf));
        var ok := Validate(sha, b.Value());
        if ok {
          return None;
        }
      i := i + 1;
    }
    return Some(DrawsExhausted);
  }
}
