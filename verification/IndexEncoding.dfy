/** Difference coding of a block of postings (examples/index/index_encoder.h): keys and values are both
    byte-coded, and the block's augmented value is folded in the same pass. */
module IndexEncoding {
  import opened Basics
  import opened SortedMaps
  import opened DiffEncoding
  import opened Augment

  /** Keys and values are C++ ints. */
  const LIMIT: nat := 0x8000_0000
  const INT_SIZE: nat := 4

  type Posting = Item<nat>

  // ------------------------------------------------------------------------------- lists of numbers

  function EncAll(ns: seq<nat>): seq<byte> {
    if ns == [] then [] else Enc(ns[0]) + EncAll(ns[1..])
  }

  function DecAll(bs: seq<byte>, n: nat): Option<seq<nat>>
    decreases n
  {
    if n == 0 then Some([]) else
    match Dec(bs)
    case None => None
    case Some(p) =>
      match DecAll(bs[p.1..], n - 1)
      case None => None
      case Some(rest) => Some([p.0] + rest)
  }

  predicate Positive(ns: seq<nat>) {
    forall i :: 0 <= i < |ns| ==> ns[i] > 0
  }

  lemma {:induction false} PositiveReadBack(ns: seq<nat>, tail: seq<byte>)
    requires Positive(ns)
    ensures DecAll(EncAll(ns) + tail, |ns|) == Some(ns)
    decreases |ns|
  {
    hide Enc, Dec;
    if ns != [] {
      var rest := EncAll(ns[1..]) + tail;
      assert EncAll(ns) + tail == Enc(ns[0]) + rest;
      DecEnc(ns[0], rest);
      assert (Enc(ns[0]) + rest)[|Enc(ns[0])|..] == rest;
      PositiveReadBack(ns[1..], tail);
      assert [ns[0]] + ns[1..] == ns;
    }
  }

  lemma {:induction false} EndsOfAll(ns: seq<nat>)
    ensures Ends(EncAll(ns)) <= |ns| && (!Positive(ns) ==> Ends(EncAll(ns)) < |ns|)
    decreases |ns|
  {
    if ns != [] {
      EndsOfAll(ns[1..]);
      EncEndsOnce(ns[0]);
      EndsConcat(Enc(ns[0]), EncAll(ns[1..]));
      if ns[0] > 0 && Positive(ns[1..]) {
        forall i | 0 <= i < |ns| ensures ns[i] > 0 { assert i > 0 ==> ns[i] == ns[1..][i - 1]; }
      }
    }
  }

  lemma {:induction false} DecodingNeedsEnds(bs: seq<byte>, n: nat)
    requires DecAll(bs, n).Some?
    ensures Ends(bs) >= n
    decreases n
  {
    if n > 0 {
      DecUsesOneEnd(bs);
      DecodingNeedsEnds(bs[Dec(bs).value.1..], n - 1);
    }
  }

  /** A list of numbers survives the byte code exactly when it holds no zero. */
  lemma ReadsBackExactlyWhenPositive(ns: seq<nat>)
    ensures DecAll(EncAll(ns), |ns|) == Some(ns) <==> Positive(ns)
  {
    if Positive(ns) {
      PositiveReadBack(ns, []);
      assert EncAll(ns) + [] == EncAll(ns);
    } else {
      EndsOfAll(ns);
      if DecAll(EncAll(ns), |ns|).Some? { DecodingNeedsEnds(EncAll(ns), |ns|); }
    }
  }

  // ---------------------------------------------------------------------------------------- blocks

  /** Postings in strictly increasing order of nonnegative ints. */
  ghost predicate Encodable(data: seq<Posting>) {
    && data != [] && (forall i, j :: 0 <= i < j < |data| ==> data[i].key < data[j].key)
    && (forall i :: 0 <= i < |data| ==> data[i].key < LIMIT && data[i].val < LIMIT)
  }

  /** The numbers written for the postings from i on: gap and value in turn. */
  ghost function Pairs(data: seq<Posting>, i: nat): seq<nat>
    requires Encodable(data) && 1 <= i <= |data|
    decreases |data| - i
  {
    if i == |data| then [] else [data[i].key - data[i - 1].key, data[i].val] + Pairs(data, i + 1)
  }

  /** A posting's gap comes before its value, and the postings come in their order. */
  lemma {:induction false} PairAt(data: seq<Posting>, i: nat, j: nat)
    requires Encodable(data) && 1 <= i && i + j < |data|
    ensures |Pairs(data, i)| == 2 * (|data| - i)
    ensures Pairs(data, i)[2 * j] == data[i + j].key - data[i + j - 1].key && Pairs(data, i)[2 * j + 1] == data[i + j].val
    decreases |data| - i
  {
    PairCount(data, i + 1);
    if j > 0 { PairAt(data, i + 1, j - 1); }
  }

  lemma {:induction false} PairCount(data: seq<Posting>, i: nat)
    requires Encodable(data) && 1 <= i <= |data|
    ensures |Pairs(data, i)| == 2 * (|data| - i)
    decreases |data| - i
  {
    if i < |data| { PairCount(data, i + 1); }
  }

  /** All numbers after the first key. */
  ghost function Numbers(data: seq<Posting>): seq<nat>
    requires Encodable(data)
  {
    [data[0].val] + Pairs(data, 1)
  }

  ghost function Bytes(data: seq<Posting>): seq<byte>
    requires Encodable(data)
  {
    Raw(data[0].key, INT_SIZE) + EncAll(Numbers(data))
  }

  /** The layout of a block: the digits of the first key in base 256, the lowest first, and then the bytes of
      the first value and of each later posting's gap and value, one number after another. */
  lemma BytesAt(data: seq<Posting>, i: nat, n: nat)
    requires Encodable(data) && i < 4 && n < |Numbers(data)|
    ensures |Bytes(data)| >= 4 && Bytes(data)[i] as nat == data[0].key / Pow(256, i) % 256
    ensures Bytes(data)[4..] == EncAll(Numbers(data)[..n]) + Enc(Numbers(data)[n]) + EncAll(Numbers(data)[n + 1..])
  {
    hide Enc, EncAll, Raw;
    RawDigits(data[0].key, INT_SIZE, i);
    assert Bytes(data)[4..] == EncAll(Numbers(data));
    NumberAt(Numbers(data), n);
  }

  lemma {:induction false} NumberAt(ns: seq<nat>, n: nat)
    requires n < |ns|
    ensures EncAll(ns) == EncAll(ns[..n]) + Enc(ns[n]) + EncAll(ns[n + 1..])
    decreases n
  {
    hide Enc;
    if n > 0 {
      NumberAt(ns[1..], n - 1);
      assert ns[1..][..n - 1] == ns[..n][1..] && ns[1..][n..] == ns[n + 1..];
    } else {
      assert ns[..0] == [];
    }
  }

  predicate ValuesPositive(data: seq<Posting>) {
    forall i :: 0 <= i < |data| ==> data[i].val > 0
  }

  lemma {:induction false} PairsPositive(data: seq<Posting>, i: nat)
    requires Encodable(data) && 1 <= i <= |data|
    ensures Positive(Pairs(data, i)) <==> forall j :: i <= j < |data| ==> data[j].val > 0
    decreases |data| - i
  {
    if i < |data| {
      var pair := [data[i].key - data[i - 1].key, data[i].val];
      PairsPositive(data, i + 1);
      PositiveConcat(pair, Pairs(data, i + 1));
      assert Positive(pair) <==> data[i].val > 0 by { assert pair[1] == data[i].val; }
    }
  }

  lemma PositiveConcat(a: seq<nat>, c: seq<nat>)
    ensures Positive(a + c) <==> Positive(a) && Positive(c)
  {
    if Positive(a + c) {
      forall i | 0 <= i < |a| ensures a[i] > 0 { assert (a + c)[i] > 0; }
      forall i | 0 <= i < |c| ensures c[i] > 0 { assert (a + c)[|a| + i] > 0; }
    }
  }

  /** A block's numbers are read back exactly when every posting has a positive value. */
  lemma BlockReadBackExactlyWhen(data: seq<Posting>)
    requires Encodable(data)
    ensures DecAll(EncAll(Numbers(data)), |Numbers(data)|) == Some(Numbers(data)) <==> ValuesPositive(data)
  {
    ReadsBackExactlyWhenPositive(Numbers(data));
    PairsPositive(data, 1);
    PositiveConcat([data[0].val], Pairs(data, 1));
    assert Positive([data[0].val]) <==> data[0].val > 0 by { assert [data[0].val][0] == data[0].val; }
  }

  lemma TwoMore(a: nat, c: nat, ns: seq<nat>)
    ensures EncAll([a, c] + ns) == Enc(a) + (Enc(c) + EncAll(ns))
  {
    assert ([a, c] + ns)[1..] == [c] + ns;
    assert ([c] + ns)[1..] == ns;
  }

  lemma OneMore(a: nat, ns: seq<nat>)
    ensures EncAll([a] + ns) == Enc(a) + EncAll(ns)
  {
    assert ([a] + ns)[1..] == ns;
  }

  lemma NothingMore()
    ensures EncAll([]) == []
  {
  }

  /** `encode`, for augmented postings. */
  method Encode<A>(data: seq<Posting>, bytes: array<byte>, g: Aug<Posting, A>) returns (offset: nat, av: A)
    requires Encodable(data) && bytes.Length >= |Bytes(data)|
    modifies bytes
    ensures offset == |Bytes(data)| && bytes[..offset] == Bytes(data)
    ensures av == FoldEntries(g, data)
  {
    hide Enc, EncAll, Raw;
    ghost var all := Bytes(data);
    av := g.fromEntry(data[0]);
    var prevKey := data[0].key;
    var first := Raw(prevKey, INT_SIZE);
    forall i | 0 <= i < INT_SIZE { bytes[i] := first[i]; }
    offset := INT_SIZE;
    assert bytes[..offset] == first;
    OneMore(data[0].val, Pairs(data, 1));
    offset := EncodeUnsigned(bytes, offset, data[0].val);
    assert data[..1] == [data[0]];
    for i := 1 to |data|
      invariant prevKey == data[i - 1].key && offset <= bytes.Length
      invariant bytes[..offset] + EncAll(Pairs(data, i)) == all
      invariant av == FoldEntries(g, data[..i])
    {
      var curKey := data[i].key;
      TwoMore(curKey - prevKey, data[i].val, Pairs(data, i + 1));
      ghost var done := bytes[..offset];
      Append(done, Enc(curKey - prevKey), Enc(data[i].val) + EncAll(Pairs(data, i + 1)), all);
      Append(done + Enc(curKey - prevKey), Enc(data[i].val), EncAll(Pairs(data, i + 1)), all);
      offset := EncodeUnsigned(bytes, offset, curKey - prevKey);
      offset := EncodeUnsigned(bytes, offset, data[i].val);
      prevKey := curKey;
      assert data[..i + 1][..i] == data[..i];
      av := g.combine(av, g.fromEntry(data[i]));
    }
    NothingMore();
    assert data[..|data|] == data;
  }

  /** `encoded_size`: the bytes that `encode` will write. */
  method EncodedSize(data: seq<Posting>) returns (n: nat)
    requires Encodable(data)
    ensures n == |Bytes(data)|
  {
    hide Enc, EncAll, Raw;
    var stk := new byte[2 * INT_SIZE];
    var prevKey, keyBytes, valBytes := data[0].key, INT_SIZE, 0;
    OneMore(data[0].val, Pairs(data, 1));
    for i := 0 to |data|
      invariant prevKey == data[if i == 0 then 0 else i - 1].key
      invariant keyBytes + valBytes + (if i == 0 then |EncAll(Numbers(data))| else |EncAll(Pairs(data, i))|) == |Bytes(data)|
    {
      var curKey := data[i].key;
      FitsScratch(curKey - prevKey);
      FitsScratch(data[i].val);
      if i > 0 { TwoMore(curKey - prevKey, data[i].val, Pairs(data, i + 1)); }
      var used := EncodeUnsigned(stk, 0, curKey - prevKey);
      keyBytes, prevKey := keyBytes + used, curKey;
      used := EncodeUnsigned(stk, 0, data[i].val);
      valBytes := valBytes + used;
    }
    NothingMore();
    n := keyBytes + valBytes;
  }

  /** An int fits the scratch array of `encoded_size`. */
  lemma FitsScratch(d: nat)
    requires d < LIMIT
    ensures |Enc(d)| <= 2 * INT_SIZE
  {
    assert Pow(256, 1) == 256 && Pow(256, 2) == 256 * 256 && Pow(256, 4) == 256 * (256 * (256 * 256));
    EncIsShort(d, INT_SIZE);
  }

  /** Reads the next of the numbers that fill the bytes up to end. */
  method ReadNumber(bytes: array<byte>, at: nat, ghost ns: seq<nat>, ghost end: nat) returns (v: nat, next: nat)
    requires at <= end <= bytes.Length && bytes[at..end] == EncAll(ns) && ns != [] && 0 < ns[0] < LIMIT
    ensures v == ns[0] && at <= next <= end && bytes[next..end] == EncAll(ns[1..])
  {
    hide Dec, Enc;
    var e := Enc(ns[0]);
    var rest := EncAll(ns[1..]) + bytes[end..];
    assert bytes[at..] == bytes[at..end] + bytes[end..] == e + rest;
    DecEnc(ns[0], rest);
    v, next := DecodeUnsigned(bytes, at, LIMIT);
    assert bytes[at..end][|e|..] == bytes[next..end];
  }

  /** `decode`, with the function it applies collecting the entries: what `encode` wrote comes back. */
  method Decode(bytes: array<byte>, size: nat, ghost data: seq<Posting>) returns (out: seq<Posting>)
    requires Encodable(data) && ValuesPositive(data) && size == |data|
    requires |Bytes(data)| <= bytes.Length && bytes[..|Bytes(data)|] == Bytes(data)
    ensures out == data
  {
    hide Enc, EncAll, Raw;
    ghost var end := |Bytes(data)|;
    FirstKey(data);
    assert bytes[..INT_SIZE] == bytes[..end][..INT_SIZE] && bytes[INT_SIZE..end] == bytes[..end][INT_SIZE..];
    var prevKey := Unraw(bytes[..INT_SIZE]);
    var curVal, at := ReadNumber(bytes, INT_SIZE, Numbers(data), end);
    assert Numbers(data)[1..] == Pairs(data, 1);
    out := [Item(prevKey, curVal)];
    for i := 1 to size
      invariant prevKey == data[i - 1].key && 0 <= at <= end && bytes[at..end] == EncAll(Pairs(data, i)) && out == data[..i]
    {
      ghost var pair := Pairs(data, i);
      var gap;
      gap, at := ReadNumber(bytes, at, pair, end);
      assert pair[1..][0] == data[i].val && pair[1..][1..] == Pairs(data, i + 1);
      curVal, at := ReadNumber(bytes, at, pair[1..], end);
      prevKey := prevKey + gap;
      out := out + [Item(prevKey, curVal)];
    }
  }

  /** The first key is stored whole. */
  lemma FirstKey(data: seq<Posting>)
    requires Encodable(data)
    ensures |Bytes(data)| >= INT_SIZE && Unraw(Bytes(data)[..INT_SIZE]) == data[0].key
    ensures Bytes(data)[INT_SIZE..] == EncAll(Numbers(data))
  {
    assert Pow(256, 1) == 256 && Pow(256, 2) == 256 * 256 && Pow(256, 4) == 256 * (256 * (256 * 256));
    RawReadBack(data[0].key, INT_SIZE);
    assert Bytes(data)[..INT_SIZE] == Raw(data[0].key, INT_SIZE);
  }

  /** `decode_cond` with the test of `find`: stops at the first posting whose key is k. */
  method Find(bytes: array<byte>, size: nat, k: nat, ghost data: seq<Posting>) returns (ret: Option<Posting>)
    requires Encodable(data) && ValuesPositive(data) && size == |data|
    requires |Bytes(data)| <= bytes.Length && bytes[..|Bytes(data)|] == Bytes(data)
    ensures ret.Some? ==> ret.value in data && ret.value.key == k
    ensures ret.None? ==> forall i :: 0 <= i < |data| ==> data[i].key != k
  {
    hide Enc, EncAll, Raw;
    ghost var end := |Bytes(data)|;
    FirstKey(data);
    assert bytes[..INT_SIZE] == bytes[..end][..INT_SIZE] && bytes[INT_SIZE..end] == bytes[..end][INT_SIZE..];
    var prevKey := Unraw(bytes[..INT_SIZE]);
    var curVal, at := ReadNumber(bytes, INT_SIZE, Numbers(data), end);
    assert Numbers(data)[1..] == Pairs(data, 1);
    if prevKey == k { return Some(Item(prevKey, curVal)); }
    for i := 1 to size
      invariant prevKey == data[i - 1].key && 0 <= at <= end && bytes[at..end] == EncAll(Pairs(data, i))
      invariant forall j :: 0 <= j < i ==> data[j].key != k
    {
      ghost var pair := Pairs(data, i);
      var gap;
      gap, at := ReadNumber(bytes, at, pair, end);
      assert pair[1..][0] == data[i].val && pair[1..][1..] == Pairs(data, i + 1);
      curVal, at := ReadNumber(bytes, at, pair[1..], end);
      prevKey := prevKey + gap;
      if prevKey == k { return Some(Item(prevKey, curVal)); }
    }
    ret := None;
  }
}
