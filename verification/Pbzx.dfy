/** The pbzx read filter carried by the libarchive patch: four magic bytes, a block size, then blocks of
two 64-bit big-endian lengths and a payload, read from an upstream that hands out windows of any size. */
module Pbzx {
  import opened CText
  import opened Results

  type Byte = b: int | 0 <= b < 256

  type Bytes = seq<Byte>

  // ---- big-endian integers (archive_be64dec)

  function Be(s: Bytes): nat {
    if s == [] then 0 else 256 * Be(s[..|s| - 1]) + s[|s| - 1]
  }

  function Power256(k: nat): nat {
    if k == 0 then 1 else 256 * Power256(k - 1)
  }

  function BeBytes(n: nat, k: nat): (s: Bytes)
    ensures |s| == k
  {
    if k == 0 then [] else BeBytes(n / 256, k - 1) + [n % 256]
  }

  lemma {:induction false} BeOfBytes(n: nat, k: nat)
    requires n < Power256(k)
    ensures Be(BeBytes(n, k)) == n
  {
    if k > 0 {
      BeOfBytes(n / 256, k - 1);
      var s := BeBytes(n, k);
      assert s[..k - 1] == BeBytes(n / 256, k - 1);
    }
  }

  lemma {:induction false} BytesOfBe(s: Bytes)
    ensures Be(s) < Power256(|s|) && BeBytes(Be(s), |s|) == s
  {
    if s != [] {
      BytesOfBe(s[..|s| - 1]);
      assert s == s[..|s| - 1] + [s[|s| - 1]];
      assert Be(s) / 256 == Be(s[..|s| - 1]) && Be(s) % 256 == s[|s| - 1];
    }
  }

  /** The first byte counts most. */
  lemma {:induction false} BeFirst(b: Byte, s: Bytes)
    ensures Be([b] + s) == b * Power256(|s|) + Be(s)
    decreases |s|
  {
    var t := [b] + s;
    if s == [] {
      assert t[..0] == [] && Power256(0) == 1;
    } else {
      BeFirst(b, s[..|s| - 1]);
      assert t[..|t| - 1] == [b] + s[..|s| - 1];
      assert Power256(|s|) == 256 * Power256(|s| - 1);
    }
  }

  /** Eight bytes hold the numbers of 64 bits. */
  lemma SixtyFourBits()
    ensures Power256(8) == 0x1_0000_0000_0000_0000
  {
    assert Power256(4) == 256 * Power256(3) == 0x1_0000_0000;
  }

  // ---- what a stream decodes to

  datatype Outcome = Clean | Fatal

  datatype Decoded = Decoded(payload: Bytes, outcome: Outcome)

  /** `pbz` and one of `z`, `x`, `4`, `e`. */
  predicate IsMagic(s: Bytes) {
    |s| == 4 && s[..3] == [0x70, 0x62, 0x7a] && s[3] in {0x7a, 0x78, 0x34, 0x65}
  }

  /** The rest of a stream at a block boundary; ending says what the upstream reports after its last byte. */
  function Blocks(s: Bytes, blockSize: nat, ending: Outcome): Decoded
    decreases |s|, 0
  {
    if s == [] then Decoded([], ending)
    else if |s| < 16 then Decoded([], Fatal)
    else if blockSize != 0 && Be(s[..8]) > blockSize then Decoded([], Fatal)
    else Data(s[16..], Be(s[8..16]), blockSize, ending)
  }

  /** The rest of a stream inside a block that still owes remaining bytes. */
  function Data(s: Bytes, remaining: nat, blockSize: nat, ending: Outcome): Decoded
    decreases |s|, 1
  {
    if |s| < remaining then Decoded(s, Fatal)
    else
      var rest := Blocks(s[remaining..], blockSize, ending);
      Decoded(s[..remaining] + rest.payload, rest.outcome)
  }

  function Stream(s: Bytes, ending: Outcome): Decoded {
    if |s| < 12 || !IsMagic(s[..4]) then Decoded([], Fatal)
    else Blocks(s[12..], Be(s[4..12]), ending)
  }

  // ---- the upstream

  class Upstream {
    const stream: Bytes
    const ending: Outcome
    var position: nat

    ghost predicate Valid()
      reads this
    {
      position <= |stream|
    }

    ghost function Unread(): Bytes
      reads this
      requires Valid()
    {
      stream[position..]
    }

    constructor (stream: Bytes, ending: Outcome)
      ensures Valid() && this.stream == stream && this.ending == ending && position == 0
    {
      this.stream := stream;
      this.ending := ending;
      position := 0;
    }

    /** Some non-empty window at the position; at the end nothing, with 0 or a negative count. */
    method Ahead() returns (window: Option<Bytes>, avail: int)
      requires Valid()
      ensures Unread() == [] ==> window == None && avail == if ending == Clean then 0 else -30
      ensures Unread() != [] ==> window.Some? && window.value != [] && window.value <= Unread() && avail == |window.value|
    {
      if position == |stream| {
        return None, if ending == Clean then 0 else -30;
      }
      var size :| 1 <= size <= |stream| - position;
      window, avail := Some(stream[position..position + size]), size;
    }

    method Consume(count: nat)
      requires Valid() && count <= |Unread()|
      modifies this
      ensures Valid() && position == old(position) + count
      ensures Unread() == old(Unread())[count..]
    {
      position := position + count;
    }
  }

  // ---- the filter

  datatype State = Signature | BlockHeader | BlockData | Done

  class Filter {
    const upstream: Upstream
    var blockSize: nat
    var remaining: nat
    var uncompressedSize: nat
    var compressedSize: nat
    var state: State
    ghost var headers: nat
    ghost var delivered: nat

    /** Until an error, the upstream stands where the framing accounts for: the stream header, the block
        headers read and the payload delivered. */
    ghost predicate Valid()
      reads this, upstream
    {
      && upstream.Valid()
      && (state == BlockData ==> remaining <= compressedSize)
      && upstream.position == (if state == Signature then 0 else 12) + 16 * headers + delivered
    }

    /** What the remaining calls together have to return. */
    ghost function Pending(): Decoded
      reads this, upstream
      requires upstream.Valid()
    {
      var s, ending := upstream.Unread(), upstream.ending;
      match state
      case Signature => Stream(s, ending)
      case BlockHeader => Blocks(s, blockSize, ending)
      case BlockData => Data(s, remaining, blockSize, ending)
      case Done => Decoded([], Clean)
    }

    constructor (upstream: Upstream)
      requires upstream.Valid() && upstream.position == 0
      ensures Valid() && this.upstream == upstream && state == Signature
    {
      this.upstream := upstream;
      blockSize, remaining, uncompressedSize, compressedSize := 0, 0, 0, 0;
      state := Signature;
      headers, delivered := 0, 0;
    }

    /** pbzx_read_bytes: exactly the next bytes, or a failure that has used up the upstream. */
    method ReadBytes(count: nat) returns (ok: bool, out: array<Byte>)
      requires upstream.Valid()
      modifies upstream
      ensures upstream.Valid() && fresh(out) && out.Length == count
      ensures ok == (count <= |old(upstream.Unread())|)
      ensures ok ==> out[..] == old(upstream.Unread())[..count] && upstream.position == old(upstream.position) + count
      ensures !ok ==> upstream.Unread() == []
    {
      ghost var s := upstream.Unread();
      out := new Byte[count](_ => 0);
      var left := count;
      while left > 0
        invariant upstream.Valid() && 0 <= left <= count
        invariant upstream.position == old(upstream.position) + (count - left)
        invariant count - left <= |s| && upstream.Unread() == s[count - left..]
        invariant out[..count - left] == s[..count - left]
      {
        var window, avail := upstream.Ahead();
        if window.None? {
          return false, out;
        }
        if avail > left {
          avail := left;
        }
        WindowExtends(s, count - left, window.value, avail);
        CopyWindow(out, count - left, window.value[..avail]);
        upstream.Consume(avail);
        left := left - avail;
      }
      ok := true;
    }

    static method CopyWindow(out: array<Byte>, start: nat, window: Bytes)
      requires start + |window| <= out.Length
      modifies out
      ensures out[..start + |window|] == old(out[..start]) + window
    {
      forall i | 0 <= i < |window| { out[start + i] := window[i]; }
    }

    method ReadU64() returns (ok: bool, value: nat)
      requires upstream.Valid()
      modifies upstream
      ensures upstream.Valid()
      ensures ok == (8 <= |old(upstream.Unread())|)
      ensures ok ==> value == Be(old(upstream.Unread())[..8]) && upstream.position == old(upstream.position) + 8
    {
      var out;
      ok, out := ReadBytes(8);
      value := Be(out[..]);
    }

    /** ST_SIGNATURE. */
    method ReadSignature() returns (ok: bool)
      requires Valid() && state == Signature
      modifies this`blockSize, this`state, upstream
      ensures upstream.Valid()
      ensures !ok ==> old(Pending()) == Decoded([], Fatal)
      ensures ok ==> Valid() && state == BlockHeader && Pending() == old(Pending())
      ensures ok ==> |upstream.Unread()| < |old(upstream.Unread())|
    {
      ghost var s := upstream.Unread();
      var read, magic := ReadBytes(4);
      if !read {
        return false;
      }
      if magic[..3] != [0x70, 0x62, 0x7a]
        || (magic[3] != 0x7a && magic[3] != 0x78 && magic[3] != 0x34 && magic[3] != 0x65) {
        assert magic[..] == s[..4] && magic[..3] == s[..4][..3];
        return false;
      }
      assert IsMagic(s[..4]) by { assert magic[..] == s[..4] && magic[..3] == s[..4][..3]; }
      if |s| >= 12 {
        assert upstream.Unread()[..8] == s[4..12];
      }
      ok, blockSize := ReadU64();
      if ok {
        state := BlockHeader;
        assert upstream.Unread() == s[12..];
      }
    }

    /** ST_BLOCK_HEADER, once the upstream has shown a byte. */
    method ReadHeader() returns (ok: bool)
      requires Valid() && state == BlockHeader && upstream.Unread() != []
      modifies this`uncompressedSize, this`compressedSize, this`remaining, this`state, this`headers, upstream
      ensures upstream.Valid()
      ensures !ok ==> old(Pending()) == Decoded([], Fatal)
      ensures ok ==> Valid() && state == BlockData && remaining == compressedSize && Pending() == old(Pending())
      ensures ok ==> |upstream.Unread()| < |old(upstream.Unread())|
    {
      ghost var s := upstream.Unread();
      ok, uncompressedSize := ReadU64();
      if !ok {
        return;
      }
      assert upstream.Unread() == s[8..];
      ok, compressedSize := ReadU64();
      if !ok {
        return;
      }
      assert s[8..][..8] == s[8..16] && upstream.Unread() == s[16..];
      if blockSize != 0 && uncompressedSize > blockSize {
        return false;
      }
      headers := headers + 1;
      remaining := compressedSize;
      state := BlockData;
    }

    /** One read call: a buffer, a clean end (0) or a fatal error (negative).  It always returns, and
        whatever windows the upstream chooses, the buffer is the next part of what is pending. */
    method Read() returns (count: int, buffer: Bytes)
      requires Valid()
      modifies this, upstream
      ensures upstream.Valid()
      ensures count > 0 ==> Valid() && state == BlockData && count == |buffer|
      ensures count > 0 ==> delivered == old(delivered) + count
      ensures count <= 0 ==> delivered == old(delivered)
      ensures count > 0 ==> old(Pending()) == Decoded(buffer + Pending().payload, Pending().outcome)
      ensures count > 0 ==> |upstream.Unread()| < |old(upstream.Unread())|
      ensures count > 0 && old(state) == BlockData && old(remaining) > 0 ==> count + remaining == old(remaining)
      ensures count > 0 && !(old(state) == BlockData && old(remaining) > 0) ==> count + remaining == compressedSize
      ensures count == 0 ==> Valid() && state == Done && old(Pending()) == Decoded([], Clean)
      ensures count == 0 && old(state) != Done ==> upstream.Unread() == []
      ensures count < 0 ==> old(Pending()) == Decoded([], Fatal)
    {
      while true
        invariant Valid() && Pending() == old(Pending())
        invariant |upstream.Unread()| <= |old(upstream.Unread())|
        invariant state == Done ==> old(state) == Done
        invariant delivered == old(delivered)
        invariant (state == old(state) && remaining == old(remaining)) || state == BlockHeader
          || (state == BlockData && remaining == compressedSize && !(old(state) == BlockData && old(remaining) > 0))
        invariant old(state) == BlockData && old(remaining) > 0 ==> state == BlockData && remaining == old(remaining)
        decreases |upstream.Unread()|, if state == BlockData then 1 else 0
      {
        match state
        case Signature =>
          var ok := ReadSignature();
          if !ok {
            return -30, [];
          }
        case BlockHeader =>
          var window, avail := upstream.Ahead();
          if window.None? {
            if avail < 0 {
              return -30, [];
            }
            state := Done;
            return 0, [];
          }
          var ok := ReadHeader();
          if !ok {
            return -30, [];
          }
        case BlockData =>
          if remaining == 0 {
            assert upstream.Unread()[0..] == upstream.Unread();
            state := BlockHeader;
          } else {
            count, buffer := Deliver();
            return;
          }
        case Done =>
          return 0, [];
      }
    }

    /** ST_BLOCK_DATA with bytes still owed. */
    method Deliver() returns (count: int, buffer: Bytes)
      requires Valid() && state == BlockData && remaining > 0
      modifies this`remaining, this`delivered, upstream
      ensures upstream.Valid()
      ensures count != 0
      ensures count > 0 ==> Valid() && count == |buffer| && count + remaining == old(remaining)
      ensures delivered == old(delivered) + if count > 0 then count else 0
      ensures count > 0 ==> old(Pending()) == Decoded(buffer + Pending().payload, Pending().outcome)
      ensures count > 0 ==> |upstream.Unread()| < |old(upstream.Unread())|
      ensures count < 0 ==> old(Pending()) == Decoded([], Fatal)
    {
      hide Data;
      ghost var s := upstream.Unread();
      var window, avail := upstream.Ahead();
      if window.None? {
        NothingOwed(remaining, blockSize, upstream.ending);
        return -30, [];
      }
      count := if avail > remaining then remaining else avail;
      buffer := window.value[..count];
      assert buffer == s[..count];
      DataSplit(s, count, remaining, blockSize, upstream.ending);
      upstream.Consume(count);
      remaining := remaining - count;
      delivered := delivered + count;
    }
  }

  lemma NothingOwed(remaining: nat, blockSize: nat, ending: Outcome)
    ensures remaining > 0 ==> Data([], remaining, blockSize, ending) == Decoded([], Fatal)
  {
  }

  /** What a window adds to the bytes read so far. */
  lemma WindowExtends(s: Bytes, done: nat, window: Bytes, taken: nat)
    requires done <= |s| && window <= s[done..] && taken <= |window|
    ensures s[..done] + window[..taken] == s[..done + taken]
    ensures s[done..][taken..] == s[done + taken..]
  {
    assert window[..taken] == s[done..][..taken] == s[done..done + taken];
  }

  /** Taking bytes of a block early changes nothing about the rest. */
  lemma DataSplit(s: Bytes, n: nat, remaining: nat, blockSize: nat, ending: Outcome)
    requires n <= remaining && n <= |s|
    ensures Data(s, remaining, blockSize, ending)
      == Decoded(s[..n] + Data(s[n..], remaining - n, blockSize, ending).payload,
                 Data(s[n..], remaining - n, blockSize, ending).outcome)
  {
    if |s| < remaining {
      assert s == s[..n] + s[n..];
    } else {
      assert s[n..][remaining - n..] == s[remaining..];
      assert s[..remaining] == s[..n] + s[n..][..remaining - n];
    }
  }

  /** A caller that reads until the filter stops receives exactly what the stream decodes to, for every
      choice of windows. */
  method Drain(filter: Filter) returns (payload: Bytes, outcome: Outcome)
    requires filter.Valid()
    modifies filter, filter.upstream
    ensures old(filter.Pending()) == Decoded(payload, outcome)
    ensures filter.delivered == old(filter.delivered) + |payload|
    ensures outcome == Clean ==> filter.Valid() && filter.state == Done
    ensures outcome == Clean && old(filter.state) != Done ==> filter.upstream.Unread() == []
  {
    hide Filter.Pending;
    payload := [];
    ghost var rest := filter.Pending().payload;
    assert [] + rest == rest;
    while true
      invariant filter.Valid()
      invariant filter.delivered == old(filter.delivered) + |payload|
      invariant filter.state == Done ==> old(filter.state) == Done
      invariant old(filter.Pending()) == Decoded(payload + filter.Pending().payload, filter.Pending().outcome)
      decreases |filter.upstream.Unread()|
    {
      var count, buffer := filter.Read();
      assert payload + [] == payload;
      if count == 0 {
        return payload, Clean;
      }
      if count < 0 {
        return payload, Fatal;
      }
      Assoc(payload, buffer, filter.Pending().payload);
      payload := payload + buffer;
    }
  }

  method Extract(stream: Bytes, ending: Outcome) returns (payload: Bytes, outcome: Outcome)
    ensures Stream(stream, ending) == Decoded(payload, outcome)
  {
    var upstream := new Upstream(stream, ending);
    var filter := new Filter(upstream);
    payload, outcome := Drain(filter);
  }

  // ---- well-formed streams

  datatype Block = Block(uncompressed: nat, payload: Bytes)

  predicate WellFormed(blockSize: nat, blocks: seq<Block>) {
    && blockSize < Power256(8)
    && forall b | b in blocks ::
         b.uncompressed < Power256(8) && |b.payload| < Power256(8) && (blockSize != 0 ==> b.uncompressed <= blockSize)
  }

  function EncodeBlocks(blocks: seq<Block>): Bytes {
    if blocks == [] then []
    else
      BeBytes(blocks[0].uncompressed, 8) + BeBytes(|blocks[0].payload|, 8) + blocks[0].payload
      + EncodeBlocks(blocks[1..])
  }

  function Encode(variant: Byte, blockSize: nat, blocks: seq<Block>): Bytes {
    [0x70, 0x62, 0x7a, variant] + BeBytes(blockSize, 8) + EncodeBlocks(blocks)
  }

  function Payload(blocks: seq<Block>): Bytes {
    if blocks == [] then [] else blocks[0].payload + Payload(blocks[1..])
  }

  /** cut bytes of the encoded blocks end where a block ends. */
  predicate IsBoundary(blocks: seq<Block>, cut: nat) {
    cut == 0
    || (blocks != [] && cut >= 16 + |blocks[0].payload| && IsBoundary(blocks[1..], cut - 16 - |blocks[0].payload|))
  }

  /** The payload bytes among the first cut bytes of the encoded blocks. */
  function PayloadWithin(blocks: seq<Block>, cut: nat): (r: Bytes)
    ensures r <= Payload(blocks)
  {
    if blocks == [] || cut < 16 then []
    else
      var p := blocks[0].payload;
      if cut - 16 < |p| then p[..cut - 16] else p + PayloadWithin(blocks[1..], cut - 16 - |p|)
  }

  lemma HeaderParts(b: Block, rest: Bytes)
    requires b.uncompressed < Power256(8) && |b.payload| < Power256(8)
    ensures var s := BeBytes(b.uncompressed, 8) + BeBytes(|b.payload|, 8) + b.payload + rest;
      Be(s[..8]) == b.uncompressed && Be(s[8..16]) == |b.payload| && s[16..] == b.payload + rest
  {
    hide Be, BeBytes, Power256;
    BeOfBytes(b.uncompressed, 8);
    BeOfBytes(|b.payload|, 8);
    Parts(BeBytes(b.uncompressed, 8), BeBytes(|b.payload|, 8), b.payload, rest);
  }

  lemma Parts(u: Bytes, c: Bytes, payload: Bytes, rest: Bytes)
    requires |u| == |c| == 8
    ensures var s := u + c + payload + rest; s[..8] == u && s[8..16] == c && s[16..] == payload + rest
  {
  }

  /** Blocks cut anywhere: the payload up to the cut, and a clean end only at a block boundary. */
  lemma {:induction false} BlocksCut(blockSize: nat, blocks: seq<Block>, cut: nat, ending: Outcome)
    requires WellFormed(blockSize, blocks) && cut <= |EncodeBlocks(blocks)|
    ensures Blocks(EncodeBlocks(blocks)[..cut], blockSize, ending)
      == Decoded(PayloadWithin(blocks, cut), if IsBoundary(blocks, cut) then ending else Fatal)
  {
    hide Be, BeBytes, Power256, Data;
    if blocks != [] && cut >= 16 {
      var b, rest := blocks[0], EncodeBlocks(blocks[1..]);
      assert b in blocks;
      HeaderCut(b, rest, cut);
      BodyCut(b.payload, rest, cut - 16);
      DataCut((b.payload + rest)[..cut - 16], |b.payload|, blockSize, ending);
      if cut - 16 >= |b.payload| {
        assert forall b' | b' in blocks[1..] :: b' in blocks;
        BlocksCut(blockSize, blocks[1..], cut - 16 - |b.payload|, ending);
      }
    }
  }

  lemma DataCut(s: Bytes, remaining: nat, blockSize: nat, ending: Outcome)
    ensures |s| < remaining ==> Data(s, remaining, blockSize, ending) == Decoded(s, Fatal)
    ensures |s| >= remaining ==>
      var rest := Blocks(s[remaining..], blockSize, ending);
      Data(s, remaining, blockSize, ending) == Decoded(s[..remaining] + rest.payload, rest.outcome)
  {
    hide Blocks;
  }

  lemma HeaderCut(b: Block, rest: Bytes, cut: nat)
    requires b.uncompressed < Power256(8) && |b.payload| < Power256(8)
    requires 16 <= cut <= 16 + |b.payload| + |rest|
    ensures var s := (BeBytes(b.uncompressed, 8) + BeBytes(|b.payload|, 8) + b.payload + rest)[..cut];
      Be(s[..8]) == b.uncompressed && Be(s[8..16]) == |b.payload| && s[16..] == (b.payload + rest)[..cut - 16]
  {
    hide Be, BeBytes, Power256;
    HeaderParts(b, rest);
    var all := BeBytes(b.uncompressed, 8) + BeBytes(|b.payload|, 8) + b.payload + rest;
    var s := all[..cut];
    assert s[..8] == all[..8] && s[8..16] == all[8..16];
    assert s[16..] == all[16..][..cut - 16];
  }

  lemma BodyCut(payload: Bytes, rest: Bytes, cut: nat)
    requires cut <= |payload| + |rest|
    ensures cut < |payload| ==> (payload + rest)[..cut] == payload[..cut]
    ensures cut >= |payload| ==>
              (payload + rest)[..cut][..|payload|] == payload && (payload + rest)[..cut][|payload|..] == rest[..cut - |payload|]
  {
  }

  lemma {:induction false} WholeIsBoundary(blocks: seq<Block>)
    ensures IsBoundary(blocks, |EncodeBlocks(blocks)|)
    ensures PayloadWithin(blocks, |EncodeBlocks(blocks)|) == Payload(blocks)
  {
    if blocks != [] {
      WholeIsBoundary(blocks[1..]);
    }
  }

  lemma StreamCut(variant: Byte, blockSize: nat, blocks: seq<Block>, cut: nat, ending: Outcome)
    requires WellFormed(blockSize, blocks) && variant in {0x7a, 0x78, 0x34, 0x65}
    requires cut <= |Encode(variant, blockSize, blocks)|
    ensures Stream(Encode(variant, blockSize, blocks)[..cut], ending)
      == if cut < 12 then Decoded([], Fatal)
         else Decoded(PayloadWithin(blocks, cut - 12), if IsBoundary(blocks, cut - 12) then ending else Fatal)
  {
    hide Be, BeBytes, Blocks;
    if cut >= 12 {
      var all := Encode(variant, blockSize, blocks);
      var s := all[..cut];
      assert s[..4] == [0x70, 0x62, 0x7a, variant] && s[..4][..3] == [0x70, 0x62, 0x7a];
      assert s[4..12] == BeBytes(blockSize, 8) && s[12..] == EncodeBlocks(blocks)[..cut - 12];
      BeOfBytes(blockSize, 8);
      BlocksCut(blockSize, blocks, cut - 12, ending);
    }
  }

  /** A well-formed stream decodes to the concatenation of its payloads, empty blocks and all. */
  lemma WellFormedDecodes(variant: Byte, blockSize: nat, blocks: seq<Block>)
    requires WellFormed(blockSize, blocks) && variant in {0x7a, 0x78, 0x34, 0x65}
    ensures Stream(Encode(variant, blockSize, blocks), Clean) == Decoded(Payload(blocks), Clean)
  {
    hide Blocks, BeBytes, Stream;
    var all := Encode(variant, blockSize, blocks);
    assert all[..|all|] == all;
    StreamCut(variant, blockSize, blocks, |all|, Clean);
    WholeIsBoundary(blocks);
  }

  lemma {:induction false} CleanBlocks(s: Bytes, blockSize: nat) returns (blocks: seq<Block>)
    requires blockSize < Power256(8) && Blocks(s, blockSize, Clean).outcome == Clean
    ensures WellFormed(blockSize, blocks) && s == EncodeBlocks(blocks)
    decreases |s|
  {
    hide Be, BeBytes;
    if s == [] {
      return [];
    }
    var u, c := Be(s[..8]), Be(s[8..16]);
    BytesOfBe(s[..8]);
    BytesOfBe(s[8..16]);
    var tail := CleanBlocks(s[16..][c..], blockSize);
    var b := Block(u, s[16..][..c]);
    blocks := [b] + tail;
    assert blocks[1..] == tail;
    assert s == s[..8] + s[8..16] + s[16..][..c] + s[16..][c..];
  }

  /** The filter ends cleanly on well-formed streams and on nothing else. */
  lemma CleanMeansWellFormed(s: Bytes) returns (variant: Byte, blockSize: nat, blocks: seq<Block>)
    requires Stream(s, Clean).outcome == Clean
    ensures WellFormed(blockSize, blocks) && variant in {0x7a, 0x78, 0x34, 0x65}
    ensures s == Encode(variant, blockSize, blocks)
  {
    hide Be, BeBytes, Blocks, EncodeBlocks;
    variant, blockSize := s[3], Be(s[4..12]);
    BytesOfBe(s[4..12]);
    blocks := CleanBlocks(s[12..], blockSize);
    assert s[..4] == s[..4][..3] + [s[3]];
    assert s == s[..4] + s[4..12] + s[12..];
  }

  /** What comes after the last whole block when it is no block: too short for a header, a header that announces
      more than the stream's block size, or a header whose payload the stream does not hold. */
  datatype Tail = Short(bytes: Bytes) | Oversized(uncompressed: nat, length: nat, rest: Bytes)
                | Truncated(uncompressed: nat, length: nat, part: Bytes)

  predicate TailFits(blockSize: nat, t: Tail) {
    match t
    case Short(bytes) => 0 < |bytes| < 16
    case Oversized(u, n, _) => u < Power256(8) && n < Power256(8) && 0 < blockSize < u
    case Truncated(u, n, part) => u < Power256(8) && n < Power256(8) && (blockSize == 0 || u <= blockSize) && |part| < n
  }

  function TailBytes(t: Tail): Bytes {
    match t
    case Short(bytes) => bytes
    case Oversized(u, n, rest) => BeBytes(u, 8) + BeBytes(n, 8) + rest
    case Truncated(u, n, part) => BeBytes(u, 8) + BeBytes(n, 8) + part
  }

  lemma TailHeader(u: nat, n: nat, rest: Bytes)
    requires u < Power256(8) && n < Power256(8)
    ensures var s := BeBytes(u, 8) + BeBytes(n, 8) + rest; Be(s[..8]) == u && Be(s[8..16]) == n && s[16..] == rest
  {
    hide Be, BeBytes, Power256;
    BeOfBytes(u, 8);
    BeOfBytes(n, 8);
    Parts(BeBytes(u, 8), BeBytes(n, 8), [], rest);
    assert BeBytes(u, 8) + BeBytes(n, 8) + [] == BeBytes(u, 8) + BeBytes(n, 8) && [] + rest == rest;
  }

  lemma TailDecodes(blockSize: nat, t: Tail, ending: Outcome)
    requires TailFits(blockSize, t)
    ensures Blocks(TailBytes(t), blockSize, ending) == Decoded(if t.Truncated? then t.part else [], Fatal)
  {
    hide Be, BeBytes, Power256;
    match t
    case Short(_) =>
    case Oversized(u, n, rest) => TailHeader(u, n, rest);
    case Truncated(u, n, part) => TailHeader(u, n, part);
  }

  /** Blocks and what follows them: the payloads, then what the rest decodes to. */
  lemma {:induction false} BlocksThen(blockSize: nat, blocks: seq<Block>, rest: Bytes, ending: Outcome)
    requires WellFormed(blockSize, blocks)
    ensures Blocks(EncodeBlocks(blocks) + rest, blockSize, ending)
      == Decoded(Payload(blocks) + Blocks(rest, blockSize, ending).payload, Blocks(rest, blockSize, ending).outcome)
  {
    hide Be, BeBytes, Power256, Blocks;
    var after := Blocks(rest, blockSize, ending);
    if blocks == [] {
      assert EncodeBlocks(blocks) + rest == rest && [] + after.payload == after.payload;
    } else {
      var b, more := blocks[0], EncodeBlocks(blocks[1..]) + rest;
      assert b in blocks;
      assert forall b' | b' in blocks[1..] :: b' in blocks;
      BlocksThen(blockSize, blocks[1..], rest, ending);
      Assoc(BeBytes(b.uncompressed, 8) + BeBytes(|b.payload|, 8) + b.payload, EncodeBlocks(blocks[1..]), rest);
      OneBlock(blockSize, b, more, ending);
      Assoc(b.payload, Payload(blocks[1..]), after.payload);
    }
  }

  lemma OneBlock(blockSize: nat, b: Block, rest: Bytes, ending: Outcome)
    requires WellFormed(blockSize, [b])
    ensures var after := Blocks(rest, blockSize, ending);
      Blocks(BeBytes(b.uncompressed, 8) + BeBytes(|b.payload|, 8) + b.payload + rest, blockSize, ending)
        == Decoded(b.payload + after.payload, after.outcome)
  {
    hide Be, BeBytes, Power256;
    assert b in [b];
    HeaderParts(b, rest);
    assert (b.payload + rest)[|b.payload|..] == rest;
  }

  /** A stream that stops being blocks delivers the payloads before that point, and of a payload that is cut
      short what is there, and then fails, however the upstream ends. */
  lemma BrokenStream(variant: Byte, blockSize: nat, blocks: seq<Block>, t: Tail, ending: Outcome)
    requires WellFormed(blockSize, blocks) && TailFits(blockSize, t) && variant in {0x7a, 0x78, 0x34, 0x65}
    ensures Stream(Encode(variant, blockSize, blocks) + TailBytes(t), ending)
      == Decoded(Payload(blocks) + if t.Truncated? then t.part else [], Fatal)
  {
    hide Be, BeBytes, Blocks, EncodeBlocks, Power256;
    BlocksThen(blockSize, blocks, TailBytes(t), ending);
    TailDecodes(blockSize, t, ending);
    BeOfBytes(blockSize, 8);
    var magic: Bytes := [0x70, 0x62, 0x7a, variant];
    OpeningParts(magic, BeBytes(blockSize, 8), EncodeBlocks(blocks), TailBytes(t));
    assert magic[..3] == [0x70, 0x62, 0x7a];
  }

  lemma OpeningParts(magic: Bytes, size: Bytes, blocks: Bytes, rest: Bytes)
    requires |magic| == 4 && |size| == 8
    ensures var s := magic + size + blocks + rest;
      |s| >= 12 && s[..4] == magic && s[4..12] == size && s[12..] == blocks + rest
  {
  }

  /** Every stream that opens is blocks and one of these ends. */
  lemma {:induction false} BlocksOrTail(s: Bytes, blockSize: nat) returns (blocks: seq<Block>, t: Option<Tail>)
    ensures blockSize < Power256(8) ==> WellFormed(blockSize, blocks)
    ensures t.Some? ==> TailFits(blockSize, t.value)
    ensures s == EncodeBlocks(blocks) + if t.Some? then TailBytes(t.value) else []
    decreases |s|
  {
    hide Be, BeBytes, Power256, TailFits;
    blocks, t := [], None;
    if s == [] {
      return;
    }
    if |s| < 16 {
      t := Some(Short(s));
      ShortFits(blockSize, s);
      return;
    }
    var u, c, data := Be(s[..8]), Be(s[8..16]), s[16..];
    HeaderRead(s);
    if blockSize != 0 && u > blockSize {
      t := Some(Oversized(u, c, data));
      LongTailFits(blockSize, u, c, data);
      return;
    }
    if |data| < c {
      t := Some(Truncated(u, c, data));
      LongTailFits(blockSize, u, c, data);
      return;
    }
    var more;
    more, t := BlocksOrTail(data[c..], blockSize);
    var b := Block(u, data[..c]);
    blocks := [b] + more;
    FrontFits(blockSize, b, more);
    FrontBytes(s, b, more, if t.Some? then TailBytes(t.value) else []);
  }

  lemma ShortFits(blockSize: nat, s: Bytes)
    requires 0 < |s| < 16
    ensures TailFits(blockSize, Short(s)) && s == EncodeBlocks([]) + TailBytes(Short(s))
  {
  }

  lemma HeaderRead(s: Bytes)
    requires |s| >= 16
    ensures var u, n := Be(s[..8]), Be(s[8..16]);
      u < Power256(8) && n < Power256(8) && s == BeBytes(u, 8) + BeBytes(n, 8) + s[16..]
  {
    hide Be, BeBytes, Power256;
    BytesOfBe(s[..8]);
    BytesOfBe(s[8..16]);
    assert s == s[..8] + s[8..16] + s[16..];
  }

  lemma LongTailFits(blockSize: nat, u: nat, n: nat, data: Bytes)
    requires u < Power256(8) && n < Power256(8)
    ensures 0 < blockSize < u ==> TailFits(blockSize, Oversized(u, n, data))
    ensures (blockSize == 0 || u <= blockSize) && |data| < n ==> TailFits(blockSize, Truncated(u, n, data))
    ensures TailBytes(Oversized(u, n, data)) == TailBytes(Truncated(u, n, data))
    ensures EncodeBlocks([]) + TailBytes(Truncated(u, n, data)) == BeBytes(u, 8) + BeBytes(n, 8) + data
  {
    hide BeBytes, Power256;
    assert [] + TailBytes(Truncated(u, n, data)) == TailBytes(Truncated(u, n, data));
  }

  lemma FrontFits(blockSize: nat, b: Block, more: seq<Block>)
    requires b.uncompressed < Power256(8) && |b.payload| < Power256(8) && (blockSize != 0 ==> b.uncompressed <= blockSize)
    ensures WellFormed(blockSize, more) ==> WellFormed(blockSize, [b] + more)
  {
  }

  lemma FrontBytes(s: Bytes, b: Block, more: seq<Block>, end: Bytes)
    requires |s| >= 16 && |b.payload| <= |s[16..]|
    requires s == BeBytes(b.uncompressed, 8) + BeBytes(|b.payload|, 8) + s[16..]
    requires b.payload == s[16..][..|b.payload|] && s[16..][|b.payload|..] == EncodeBlocks(more) + end
    ensures s == EncodeBlocks([b] + more) + end
  {
    hide BeBytes;
    var header := BeBytes(b.uncompressed, 8) + BeBytes(|b.payload|, 8);
    assert ([b] + more)[1..] == more;
    Assoc(header + b.payload, EncodeBlocks(more), end);
    Assoc(header, b.payload, EncodeBlocks(more) + end);
    assert s[16..] == b.payload + s[16..][|b.payload|..];
  }

  /** Every stream that opens and has its block size is blocks, and ends there or with one such tail. */
  lemma StreamOrBroken(s: Bytes) returns (variant: Byte, blockSize: nat, blocks: seq<Block>, t: Option<Tail>)
    requires |s| >= 12 && s[..3] == [0x70, 0x62, 0x7a] && s[3] in {0x7a, 0x78, 0x34, 0x65}
    ensures WellFormed(blockSize, blocks) && variant in {0x7a, 0x78, 0x34, 0x65}
    ensures t.Some? ==> TailFits(blockSize, t.value)
    ensures s == Encode(variant, blockSize, blocks) + if t.Some? then TailBytes(t.value) else []
  {
    hide Be, BeBytes, Power256, TailFits, TailBytes, EncodeBlocks;
    variant, blockSize := s[3], Be(s[4..12]);
    BytesOfBe(s[4..12]);
    blocks, t := BlocksOrTail(s[12..], blockSize);
    var magic: Bytes := [0x70, 0x62, 0x7a, variant];
    assert s == magic + s[4..12] + s[12..];
    Assoc(magic + s[4..12], EncodeBlocks(blocks), if t.Some? then TailBytes(t.value) else []);
  }

  // ---- bidding

  /** pbzx_bidder_bid, on the bytes the upstream starts with. */
  function Bid(s: Bytes): int {
    if |s| < 4 then 0
    else if s[..3] != [0x70, 0x62, 0x7a] then 0
    else if s[3] != 0x7a && s[3] != 0x78 && s[3] != 0x34 && s[3] != 0x65 then 0
    else 32
  }

  /** The first four bytes begin some stream that ends cleanly. */
  ghost predicate Opens(s: Bytes) {
    |s| >= 4 && exists rest :: Stream(s[..4] + rest, Clean).outcome == Clean
  }

  /** The bid is 32 on the openings of streams that end cleanly, and 0 on everything else; so every stream that
      can deliver anything, or end cleanly, is bid on. */
  lemma BidExact(s: Bytes, ending: Outcome)
    ensures Bid(s) == if Opens(s) then 32 else 0
    ensures Stream(s, ending) != Decoded([], Fatal) ==> Bid(s) == 32
  {
    hide Blocks;
    if |s| >= 4 {
      assert s[..4][..3] == s[..3];
      forall rest ensures Stream(s[..4] + rest, Clean).outcome == Clean ==> IsMagic(s[..4]) {
        assert (s[..4] + rest)[..4] == s[..4];
      }
      var rest: Bytes := [0, 0, 0, 0, 0, 0, 0, 0];
      var t := s[..4] + rest;
      assert t[..4] == s[..4] && t[12..] == [];
      EmptyBlocks(Be(t[4..12]));
      assert IsMagic(s[..4]) ==> Stream(t, Clean).outcome == Clean;
    }
  }

  lemma EmptyBlocks(blockSize: nat)
    ensures Blocks([], blockSize, Clean) == Decoded([], Clean)
  {
  }
}
