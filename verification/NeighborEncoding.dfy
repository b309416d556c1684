/** Difference coding of an adjacency list (examples/graphs/aspen/compression.h): the first neighbour is
    stored by its distance from the source vertex with a sign bit, the others by their gaps. */
module NeighborEncoding {
  import opened Basics
  import opened SortedMaps
  import opened DiffEncoding

  /** One more than the largest vertex identifier that 32 bits hold. */
  const LIMIT: nat := 0x1_0000_0000

  function Distance(source: int, target: int): nat {
    if target < source then source - target else target - source
  }

  /** What `compress_first_neighbor` writes: six bits, a sign bit and, if more follow, the top bit. */
  function First(source: int, target: int): seq<byte> {
    var d := Distance(source, target) % LIMIT;
    [(d % 64 + (if target < source then 64 else 0) + (if d >= 64 then 128 else 0)) as byte] + Enc(d / 64)
  }

  /** What `read_first_neighbor` reads, and how many bytes, in 32-bit arithmetic. */
  function ReadFirst(bs: seq<byte>, src: nat): Option<(nat, nat)> {
    if bs == [] then None else
    var fb := bs[0] as nat;
    var rest := if fb >= 128 then Dec(bs[1..]) else Some((0, 0));
    match rest
    case None => None
    case Some(p) =>
      var d := (fb % 64 + 64 * p.0) % LIMIT;
      Some(((if fb / 64 % 2 == 1 then src - d else src + d) % LIMIT, p.1 + 1))
  }

  lemma WrapsBack(source: int, target: int)
    ensures var d := Distance(source, target) % LIMIT;
      (if target < source then source % LIMIT - d else source % LIMIT + d) % LIMIT == target % LIMIT
  {
  }

  /** The fields of the first byte. */
  lemma FirstByte(d: nat, sign: bool)
    requires d < LIMIT
    ensures var fb := d % 64 + (if sign then 64 else 0) + (if d >= 64 then 128 else 0);
      fb < 256 && fb % 64 == d % 64 && (fb / 64 % 2 == 1 <==> sign) && (fb >= 128 <==> d >= 64) && d % 64 + 64 * (d / 64) == d % LIMIT == d
  {
  }

  /** What the bytes of the first neighbour are: the low six bits of its distance, whether it is below the
      source, whether more follow, and then the rest of the distance. */
  lemma FirstFields(source: int, target: int)
    ensures
      var d, bs := (if target < source then source - target else target - source) % LIMIT, First(source, target);
      && bs != [] && bs[0] as nat % 64 == d % 64 && (bs[0] as nat / 64 % 2 == 1 <==> target < source) && (bs[0] >= 128 <==> d >= 64)
      && bs[1..] == Enc(d / 64)
  {
    hide Enc;
    var d := Distance(source, target) % LIMIT;
    FirstByte(d, target < source);
    assert First(source, target)[0] as nat == d % 64 + (if target < source then 64 else 0) + (if d >= 64 then 128 else 0);
  }

  /** The first neighbour is read back for all vertices, even when their distance wraps around. */
  lemma FirstReadBack(source: int, target: int, tail: seq<byte>)
    ensures ReadFirst(First(source, target) + tail, source % LIMIT) == Some((target % LIMIT, |First(source, target)|))
  {
    hide Enc, Dec;
    var d, bs := Distance(source, target) % LIMIT, First(source, target) + tail;
    assert bs[1..] == Enc(d / 64) + tail;
    if d >= 64 { DecEnc(d / 64, tail); }
    FirstByte(d, target < source);
    WrapsBack(source, target);
  }

  /** The list that `write_iter` writes for a vertex and its sorted neighbours. */
  function List(src: nat, ngh: seq<nat>): seq<byte>
    requires ngh != []
  {
    First(src, ngh[0]) + GapBytes(ngh, LIMIT)
  }

  /** What `read_iter` yields from it. */
  function ReadList(bs: seq<byte>, src: nat, deg: nat): Option<seq<nat>>
    requires deg >= 1
  {
    match ReadFirst(bs, src)
    case None => None
    case Some(p) =>
      if p.1 > |bs| then None else
      match ReadGaps(p.0, bs[p.1..], deg - 1, LIMIT)
      case None => None
      case Some(rest) => Some([p.0] + rest)
  }

  /** Sorted neighbours are read back exactly when none is listed twice. */
  lemma ListReadBackExactlyWhen(src: nat, ngh: seq<nat>)
    requires ngh != [] && Nondecreasing(ngh) && src < LIMIT && forall i :: 0 <= i < |ngh| ==> ngh[i] < LIMIT
    ensures ReadList(List(src, ngh), src, |ngh|) == Some(ngh) <==> Strict(ngh)
  {
    hide First, ReadFirst, GapBytes, ReadGaps, Nondecreasing, Strict, Differ, Dec;
    var first, bs := First(src, ngh[0]), List(src, ngh);
    FirstReadBack(src, ngh[0], GapBytes(ngh, LIMIT));
    assert bs[|first|..] == GapBytes(ngh, LIMIT);
    DifferIsStrict(ngh);
    ReadBackExactlyWhen(ngh, LIMIT);
    assert [ngh[0]] + ngh[1..] == ngh;
    var gaps := ReadGaps(ngh[0], GapBytes(ngh, LIMIT), |ngh| - 1, LIMIT);
    if gaps.Some? && [ngh[0]] + gaps.value == ngh {
      assert ([ngh[0]] + gaps.value)[1..] == gaps.value;
    }
  }

  /** `compress_first_neighbor`. */
  method CompressFirstNeighbor(start: array<byte>, offset: nat, source: int, target: int) returns (off: nat)
    requires offset + |First(source, target)| <= start.Length
    modifies start
    ensures off == offset + |First(source, target)| && start[..off] == old(start[..offset]) + First(source, target)
  {
    hide Enc;
    var toCompress := (if target < source then source - target else target - source) % LIMIT;
    var firstByte := toCompress % 64;
    if target < source { firstByte := firstByte + 64; }
    toCompress := toCompress / 64;
    if toCompress > 0 { firstByte := firstByte + 128; }
    Put(start, offset, firstByte as byte);
    off := EncodeUnsigned(start, offset + 1, toCompress);
  }

  /** `read_first_neighbor`. */
  method ReadFirstNeighbor(bytes: array<byte>, start: nat, src: nat) returns (ngh: nat, ptr: nat)
    requires start < bytes.Length && ReadFirst(bytes[start..], src).Some?
    ensures ReadFirst(bytes[start..], src) == Some((ngh, ptr - start))
  {
    hide Dec;
    var fb := bytes[start] as nat;
    assert bytes[start..][0] == bytes[start] && bytes[start..][1..] == bytes[start + 1..];
    var edgeRead := fb % 64;
    ptr := start + 1;
    if fb >= 128 {
      edgeRead, ptr := ReadMore(bytes, ptr, edgeRead);
    }
    edgeRead := edgeRead % LIMIT;
    ngh := (if fb / 64 % 2 == 1 then src - edgeRead else src + edgeRead) % LIMIT;
  }

  /** The loop of `read_first_neighbor`: the bits above the first six. */
  method ReadMore(bytes: array<byte>, from: nat, low: nat) returns (edgeRead: nat, ptr: nat)
    requires from <= bytes.Length && Dec(bytes[from..]).Some?
    ensures edgeRead == low + 64 * Dec(bytes[from..]).value.0 && ptr == from + Dec(bytes[from..]).value.1
  {
    hide Dec;
    ghost var whole := Dec(bytes[from..]).value.0;
    var scale := 64;
    edgeRead, ptr := low, from;
    while true
      invariant from <= ptr < bytes.Length && Dec(bytes[ptr..]).Some? && scale >= 1
      invariant edgeRead + scale * Dec(bytes[ptr..]).value.0 == low + 64 * whole
      invariant ptr + Dec(bytes[ptr..]).value.1 == from + Dec(bytes[from..]).value.1
      decreases bytes.Length - ptr
    {
      var b := bytes[ptr] as nat;
      DecNext(bytes[ptr..]);
      assert bytes[ptr..][1..] == bytes[ptr + 1..];
      edgeRead := edgeRead + scale * (b % 128);
      ptr := ptr + 1;
      if b < 128 { break; }
      Shift(scale, b - 128, Dec(bytes[ptr..]).value.0);
      scale := scale * 128;
    }
  }
}
