/** Difference coding of a block's keys (include/cpam/compression.h and byte_encode.h).

    Keys are unsigned integers of s bytes.  The first is stored whole and each later one as its
    distance from the one before, in seven bits a byte with the top bit set on all but the last: the
    unsigned LEB128 form of section 7.6 of DWARF version 5, except that zero takes no bytes. */
module DiffEncoding {
  import opened Basics
  import opened SortedMaps

  newtype byte = x: int | 0 <= x < 256

  // ------------------------------------------------------------------------------ one unsigned number

  /** What `encodeUnsigned` writes. */
  function Enc(d: nat): (bs: seq<byte>)
    ensures |bs| == 0 <==> d == 0
  {
    if d == 0 then []
    else if d < 128 then [d as byte]
    else [(d % 128 + 128) as byte] + Enc(d / 128)
  }

  /** What `decodeUnsigned` reads, and how many bytes; None if the bytes end first. */
  function Dec(bs: seq<byte>): (r: Option<(nat, nat)>)
    ensures r.Some? ==> 1 <= r.value.1 <= |bs|
  {
    if bs == [] then None
    else if bs[0] < 128 then Some((bs[0] as nat, 1))
    else match Dec(bs[1..])
      case None => None
      case Some(p) => Some(((bs[0] as nat - 128) + 128 * p.0, p.1 + 1))
  }

  /** Decoding undoes encoding and stops where the next number begins. */
  lemma {:induction false} DecEnc(d: nat, rest: seq<byte>)
    requires d > 0
    ensures Dec(Enc(d) + rest) == Some((d, |Enc(d)|))
  {
    if d < 128 {
      assert (Enc(d) + rest)[0] == d as byte;
    } else {
      DecEnc(d / 128, rest);
      assert (Enc(d) + rest)[1..] == Enc(d / 128) + rest;
    }
  }

  /** A number of s bytes takes at most 2s bytes, the size of the scratch array in `encoded_size`. */
  lemma {:induction false} EncIsShort(d: nat, s: nat)
    requires d < Pow(256, s)
    ensures |Enc(d)| <= 2 * s
  {
    if s > 0 && d >= 128 {
      assert Enc(d) == [(d % 128 + 128) as byte] + Enc(d / 128);
      if d / 128 >= 128 {
        assert Enc(d / 128) == [(d / 128 % 128 + 128) as byte] + Enc(d / 128 / 128);
        assert d / 128 / 128 < Pow(256, s - 1);
        EncIsShort(d / 128 / 128, s - 1);
      }
    }
  }

  /** The bytes of a positive number are its digits in base 128, the lowest first and no more than it has,
      with the top bit set on all but the last. */
  lemma {:induction false} EncDigits(d: nat, i: nat)
    requires i < |Enc(d)|
    ensures Enc(d)[i] as nat == d / Pow(128, i) % 128 + if i < |Enc(d)| - 1 then 128 else 0
    decreases i
  {
    if i > 0 {
      EncDigits(d / 128, i - 1);
      NextDigit(d, 128, i);
    }
  }

  lemma {:induction false} EncLength(d: nat)
    requires d > 0
    ensures Pow(128, |Enc(d)| - 1) <= d < Pow(128, |Enc(d)|)
  {
    if d >= 128 {
      EncLength(d / 128);
      var n := |Enc(d)|;
      assert Pow(128, n) == 128 * Pow(128, n - 1) && Pow(128, n - 1) == 128 * Pow(128, n - 2);
    }
  }

  /** `encodeUnsigned`. */
  method EncodeUnsigned(start: array<byte>, curOffset: nat, diff: nat) returns (off: nat)
    requires curOffset + |Enc(diff)| <= start.Length
    modifies start
    ensures off == curOffset + |Enc(diff)| && start[..off] == old(start[..curOffset]) + Enc(diff)
  {
    hide Enc;
    var d, curByte := diff, diff % 128;
    off := curOffset;
    while curByte > 0 || d > 0
      invariant off + |Enc(d)| == curOffset + |Enc(diff)| && curByte == d % 128
      invariant start[..off] + Enc(d) == old(start[..curOffset]) + Enc(diff)
      decreases d
    {
      EncNext(d);
      var toWrite := curByte;
      d := d / 128;
      curByte := d % 128;
      if d > 0 { toWrite := toWrite + 128; }
      Put(start, off, toWrite as byte);
      off := off + 1;
    }
  }

  /** The byte that comes next. */
  lemma EncNext(d: nat)
    requires d > 0
    ensures Enc(d) == [(d % 128 + if d / 128 > 0 then 128 else 0) as byte] + Enc(d / 128)
  {
  }

  lemma DecNext(bs: seq<byte>)
    requires Dec(bs).Some?
    ensures bs != []
    ensures
      if bs[0] < 128 then Dec(bs).value == (bs[0] as nat, 1) else
        && Dec(bs[1..]).Some? && Dec(bs).value.1 == Dec(bs[1..]).value.1 + 1
        && Dec(bs).value.0 == bs[0] as nat - 128 + 128 * Dec(bs[1..]).value.0
  {
  }

  /** `decodeUnsigned` of numbers below m, computed in their type, that is modulo m. */
  method DecodeUnsigned(bytes: array<byte>, start: nat, m: nat) returns (value: nat, ptr: nat)
    requires start <= bytes.Length && Dec(bytes[start..]).Some? && m >= 1
    ensures ptr == start + Dec(bytes[start..]).value.1 && value == Dec(bytes[start..]).value.0 % m
  {
    hide Dec;
    value, ptr := 0, start;
    var scale := 1;
    ghost var whole: nat := 0;
    while true
      invariant start <= ptr < bytes.Length && Dec(bytes[ptr..]).Some? && scale >= 1
      invariant value == whole % m
      invariant whole + scale * Dec(bytes[ptr..]).value.0 == Dec(bytes[start..]).value.0
      invariant ptr + Dec(bytes[ptr..]).value.1 == start + Dec(bytes[start..]).value.1
      decreases bytes.Length - ptr
    {
      var b := bytes[ptr];
      DecNext(bytes[ptr..]);
      assert bytes[ptr..][0] == b && bytes[ptr..][1..] == bytes[ptr + 1..];
      ghost var before: nat := whole;
      whole := whole + scale * (b as nat % 128);
      ModAdd(before, scale * (b as nat % 128), m);
      value := (value + scale * (b as nat % 128)) % m;
      ptr := ptr + 1;
      if b < 128 { break; }
      ghost var v := Dec(bytes[ptr..]).value.0;
      Shift(scale, b as nat - 128, v);
      scale := scale * 128;
    }
  }

  lemma ModAdd(a: nat, c: nat, m: nat)
    requires m >= 1
    ensures (a % m + c) % m == (a + c) % m
  {
    var q, low := a / m, a % m + c;
    var p, r := low / m, low % m;
    assert a + c == q * m + p * m + r;
    Distribute(q, p, m);
    ModIs(a + c, q + p, r, m);
  }

  lemma Shift(scale: nat, low: nat, v: nat)
    ensures scale * (low + 128 * v) == scale * low + scale * 128 * v
  {
  }

  // ------------------------------------------------------------------------------------- runs of keys

  predicate Nondecreasing(keys: seq<nat>) {
    forall i, j :: 0 <= i < j < |keys| ==> keys[i] <= keys[j]
  }

  predicate Strict(keys: seq<nat>) {
    forall i, j :: 0 <= i < j < |keys| ==> keys[i] < keys[j]
  }

  /** No key equals the one before it. */
  predicate Differ(keys: seq<nat>) {
    forall i :: 0 < i < |keys| ==> keys[i - 1] != keys[i]
  }

  /** In sorted runs that means that no two keys are equal. */
  lemma {:induction false} DifferIsStrict(keys: seq<nat>)
    requires Nondecreasing(keys)
    ensures Differ(keys) <==> Strict(keys)
  {
    if Differ(keys) {
      forall i, j | 0 <= i < j < |keys| ensures keys[i] < keys[j] { assert keys[i] <= keys[j - 1] && keys[j - 1] != keys[j]; }
    } else {
      var i :| 0 < i < |keys| && keys[i - 1] == keys[i];
      assert !(keys[i - 1] < keys[i]);
    }
  }

  /** `cur_key - prev_key`, in an unsigned type that holds m numbers. */
  function Gap(prev: nat, cur: nat, m: nat): nat
    requires m >= 1
  {
    (cur - prev) % m
  }

  lemma GapBack(prev: nat, cur: nat, m: nat)
    requires m >= 1 && prev < m && cur < m
    ensures var d := Gap(prev, cur, m); d < m && (d == 0 <==> prev == cur) && (prev + d % m) % m == cur
  {
    var d := cur - prev;
    if d >= 0 {
      ModIs(d, 0, d, m);
      ModIs(cur, 0, cur, m);
    } else {
      ModIs(d, -1, d + m, m);
      ModIs(d + m, 0, d + m, m);
      ModIs(cur + m, 1, cur, m);
    }
  }

  /** Between keys in order it is their distance; between others the distance wraps around. */
  lemma GapIsDistance(prev: nat, cur: nat, m: nat)
    requires prev < m && cur < m
    ensures Gap(prev, cur, m) == if prev <= cur then cur - prev else m - (prev - cur)
  {
    ModIs(cur - prev, if prev <= cur then 0 else -1, if prev <= cur then cur - prev else m - (prev - cur), m);
  }

  /** The bytes of the keys after the first. */
  function GapBytes(keys: seq<nat>, m: nat): seq<byte>
    requires m >= 1
  {
    if |keys| <= 1 then [] else Enc(Gap(keys[0], keys[1], m)) + GapBytes(keys[1..], m)
  }

  lemma FirstGap(keys: seq<nat>, m: nat)
    requires m >= 1
    ensures GapBytes(keys, m) == if |keys| <= 1 then [] else Enc(Gap(keys[0], keys[1], m)) + GapBytes(keys[1..], m)
  {
  }

  lemma Associate(e: seq<byte>, a: seq<byte>, b: seq<byte>, c: seq<byte>)
    ensures e + (a + b + c) == e + a + b + c
  {
  }

  /** Key i is written as its distance from the one before, after the keys before it. */
  lemma {:induction false} GapBytesAt(keys: seq<nat>, i: nat, m: nat)
    requires 1 <= i < |keys| && forall j :: 0 <= j < |keys| ==> keys[j] < m
    ensures
      var d := if keys[i - 1] <= keys[i] then keys[i] - keys[i - 1] else m - (keys[i - 1] - keys[i]);
      GapBytes(keys, m) == GapBytes(keys[..i], m) + Enc(d) + GapBytes(keys[i..], m)
    decreases i
  {
    hide Enc, Gap, GapBytes;
    GapIsDistance(keys[i - 1], keys[i], m);
    FirstGap(keys, m);
    FirstGap(keys[..i], m);
    if i > 1 {
      GapBytesAt(keys[1..], i - 1, m);
      assert keys[1..][..i - 1] == keys[..i][1..] && keys[1..][i - 1..] == keys[i..];
      Associate(Enc(Gap(keys[0], keys[1], m)), GapBytes(keys[1..][..i - 1], m), Enc(Gap(keys[i - 1], keys[i], m)), GapBytes(keys[i..], m));
    }
  }

  /** n keys read after prev, in arithmetic modulo m; None if the bytes end first. */
  function ReadGaps(prev: nat, bs: seq<byte>, n: nat, m: nat): Option<seq<nat>>
    requires m >= 1
    decreases n
  {
    if n == 0 then Some([]) else
    match Dec(bs)
    case None => None
    case Some(p) =>
      var key := (prev + p.0 % m) % m;
      match ReadGaps(key, bs[p.1..], n - 1, m)
      case None => None
      case Some(rest) => Some([key] + rest)
  }

  /** Keys of which no two neighbours are equal are read back, in whatever order they are, and nothing
      beyond their bytes is read. */
  lemma {:induction false} GapsReadBack(keys: seq<nat>, tail: seq<byte>, m: nat)
    requires m >= 1 && keys != [] && Differ(keys) && forall i :: 0 <= i < |keys| ==> keys[i] < m
    ensures ReadGaps(keys[0], GapBytes(keys, m) + tail, |keys| - 1, m) == Some(keys[1..])
    decreases |keys|
  {
    hide Enc, Dec, Gap;
    if |keys| > 1 {
      var d, rest := Gap(keys[0], keys[1], m), GapBytes(keys[1..], m) + tail;
      GapBack(keys[0], keys[1], m);
      assert GapBytes(keys, m) + tail == Enc(d) + rest;
      DecEnc(d, rest);
      assert (Enc(d) + rest)[|Enc(d)|..] == rest;
      GapsReadBack(keys[1..], tail, m);
      assert [keys[1]] + keys[1..][1..] == keys[1..];
    }
  }

  /** The bytes that end a number. */
  function Ends(bs: seq<byte>): nat {
    if bs == [] then 0 else (if bs[0] < 128 then 1 else 0) + Ends(bs[1..])
  }

  lemma {:induction false} EndsConcat(a: seq<byte>, c: seq<byte>)
    ensures Ends(a + c) == Ends(a) + Ends(c)
  {
    if a == [] { assert a + c == c; } else {
      assert (a + c)[1..] == a[1..] + c;
      EndsConcat(a[1..], c);
    }
  }

  lemma {:induction false} EncEndsOnce(d: nat)
    ensures Ends(Enc(d)) == if d == 0 then 0 else 1
  {
    if d >= 128 {
      EncEndsOnce(d / 128);
      assert Enc(d)[1..] == Enc(d / 128);
    } else if d > 0 {
      assert Enc(d)[1..] == [];
    }
  }

  lemma {:induction false} DecUsesOneEnd(bs: seq<byte>)
    requires Dec(bs).Some?
    ensures Ends(bs[Dec(bs).value.1..]) == Ends(bs) - 1
  {
    if bs[0] >= 128 {
      DecUsesOneEnd(bs[1..]);
      assert bs[1..][Dec(bs[1..]).value.1..] == bs[Dec(bs).value.1..];
    }
  }

  lemma {:induction false} ReadingNeedsEnds(prev: nat, bs: seq<byte>, n: nat, m: nat)
    requires m >= 1 && ReadGaps(prev, bs, n, m).Some?
    ensures Ends(bs) >= n
    decreases n
  {
    if n > 0 {
      var p := Dec(bs).value;
      DecUsesOneEnd(bs);
      ReadingNeedsEnds((prev + p.0 % m) % m, bs[p.1..], n - 1, m);
    }
  }

  lemma {:induction false} ZeroGapLosesAnEnd(keys: seq<nat>, m: nat)
    requires m >= 1 && keys != [] && forall i :: 0 <= i < |keys| ==> keys[i] < m
    ensures Ends(GapBytes(keys, m)) <= |keys| - 1 && (!Differ(keys) ==> Ends(GapBytes(keys, m)) < |keys| - 1)
    decreases |keys|
  {
    hide Gap;
    if |keys| > 1 {
      var d := Gap(keys[0], keys[1], m);
      GapBack(keys[0], keys[1], m);
      ZeroGapLosesAnEnd(keys[1..], m);
      EncEndsOnce(d);
      EndsConcat(Enc(d), GapBytes(keys[1..], m));
      if d > 0 && Differ(keys[1..]) {
        forall i | 0 < i < |keys| ensures keys[i - 1] != keys[i] {
          if i > 1 { assert keys[1..][i - 2] != keys[1..][i - 1]; }
        }
      }
    }
  }

  /** Keys are read back exactly when no two neighbours are equal: a gap of zero leaves no bytes. */
  lemma ReadBackExactlyWhen(keys: seq<nat>, m: nat)
    requires m >= 1 && keys != [] && forall i :: 0 <= i < |keys| ==> keys[i] < m
    ensures ReadGaps(keys[0], GapBytes(keys, m), |keys| - 1, m) == Some(keys[1..]) <==> Differ(keys)
  {
    if Differ(keys) {
      GapsReadBack(keys, [], m);
      assert GapBytes(keys, m) + [] == GapBytes(keys, m);
    } else {
      ZeroGapLosesAnEnd(keys, m);
      if ReadGaps(keys[0], GapBytes(keys, m), |keys| - 1, m).Some? {
        ReadingNeedsEnds(keys[0], GapBytes(keys, m), |keys| - 1, m);
      }
    }
  }

  /** For example, of two equal keys of one byte the second leaves no bytes and cannot be read. */
  lemma EqualKeysAreLost()
    ensures GapBytes([5, 5], 256) == [] && ReadGaps(5, GapBytes([5, 5], 256), 1, 256) == None
  {
    assert [5, 5][1..] == [5];
  }

  // ---------------------------------------------------------------------------------------- whole blocks

  datatype Item<V> = Item(key: nat, val: V)

  function Keys<V>(data: seq<Item<V>>): (ks: seq<nat>)
    ensures |ks| == |data| && forall i :: 0 <= i < |data| ==> ks[i] == data[i].key
  {
    seq(|data|, i requires 0 <= i < |data| => data[i].key)
  }

  /** A key stored whole, least byte first. */
  function Raw(k: nat, s: nat): (bs: seq<byte>)
    ensures |bs| == s
  {
    if s == 0 then [] else [(k % 256) as byte] + Raw(k / 256, s - 1)
  }

  /** Byte i of a key stored whole is its digit i in base 256. */
  lemma {:induction false} RawDigits(k: nat, s: nat, i: nat)
    requires i < s
    ensures Raw(k, s)[i] as nat == k / Pow(256, i) % 256
    decreases i
  {
    if i > 0 {
      RawDigits(k / 256, s - 1, i - 1);
      NextDigit(k, 256, i);
    }
  }

  function Unraw(bs: seq<byte>): nat {
    if bs == [] then 0 else bs[0] as nat + 256 * Unraw(bs[1..])
  }

  lemma {:induction false} RawReadBack(k: nat, s: nat)
    requires k < Pow(256, s)
    ensures Unraw(Raw(k, s)) == k
  {
    if s > 0 {
      RawReadBack(k / 256, s - 1);
      assert Raw(k, s)[1..] == Raw(k / 256, s - 1);
    }
  }

  lemma {:induction false} PowPositive(s: nat)
    ensures Pow(256, s) >= 1
  {
    if s > 0 { PowPositive(s - 1); }
  }

  /** How many numbers s bytes hold. */
  function Modulus(s: nat): (m: nat)
    ensures m >= 1
  {
    PowPositive(s);
    Pow(256, s)
  }

  /** A block whose keys have s bytes. */
  ghost predicate Encodable<V>(data: seq<Item<V>>, s: nat) {
    data != [] && forall i :: 0 <= i < |data| ==> data[i].key < Modulus(s)
  }

  /** The key bytes of a block. */
  ghost function KeyBytes<V>(data: seq<Item<V>>, s: nat): seq<byte>
    requires data != []
  {
    Raw(data[0].key, s) + GapBytes(Keys(data), Modulus(s))
  }

  /** The first s bytes are the digits of the first key in base 256, the lowest first. */
  lemma FirstKeyBytes<V>(data: seq<Item<V>>, s: nat, i: nat)
    requires data != [] && i < s
    ensures |KeyBytes(data, s)| >= s && KeyBytes(data, s)[i] as nat == data[0].key / Pow(256, i) % 256
  {
    RawDigits(data[0].key, s, i);
  }

  /** The gap that comes next after i keys. */
  lemma NextGap(keys: seq<nat>, i: nat, m: nat)
    requires m >= 1 && 1 <= i < |keys|
    ensures GapBytes(keys[i - 1..], m) == Enc(Gap(keys[i - 1], keys[i], m)) + GapBytes(keys[i..], m)
  {
    assert keys[i - 1..][1..] == keys[i..];
  }

  lemma NoGap(keys: seq<nat>, i: nat, m: nat)
    requires m >= 1 && i == |keys| > 0
    ensures GapBytes(keys[i - 1..], m) == []
  {
  }

  /** The loop of `encoded_size`; its first round encodes a gap of zero. */
  method KeySize<V>(data: seq<Item<V>>, s: nat) returns (keyBytes: nat)
    requires Encodable(data, s)
    ensures keyBytes == |KeyBytes(data, s)|
  {
    hide Enc, GapBytes, Modulus, Pow, Raw;
    var stk := new byte[2 * s];
    var prevKey, m := data[0].key, Modulus(s);
    keyBytes := s;
    ghost var keys, at := Keys(data), 0;
    assert keys[0..] == keys;
    for i := 0 to |data|
      invariant at == (if i == 0 then 0 else i - 1) && prevKey == data[at].key
      invariant keyBytes + |GapBytes(keys[at..], m)| == s + |GapBytes(keys, m)|
    {
      var curKey := data[i].key;
      GapIsShort(prevKey, curKey, s);
      if i > 0 { NextGap(keys, i, m); }
      var used := EncodeUnsigned(stk, 0, Gap(prevKey, curKey, m));
      keyBytes, prevKey, at := keyBytes + used, curKey, i;
    }
    NoGap(keys, |data|, m);
  }

  lemma GapIsShort(prev: nat, cur: nat, s: nat)
    requires prev < Modulus(s) && cur < Modulus(s)
    ensures |Enc(Gap(prev, cur, Modulus(s)))| <= 2 * s && (prev == cur ==> Gap(prev, cur, Modulus(s)) == 0)
  {
    hide Enc, Pow;
    GapBack(prev, cur, Modulus(s));
    EncIsShort(Gap(prev, cur, Modulus(s)), s);
  }

  /** `encoded_size`: the bytes that `encode` will write. */
  method EncodedSize<V>(data: seq<Item<V>>, s: nat, valSize: nat) returns (n: nat)
    requires Encodable(data, s)
    ensures n == |KeyBytes(data, s)| + |data| * valSize
  {
    var keyBytes := KeySize(data, s);
    n := keyBytes + |data| * valSize;
  }

  /** `encode`: the keys go to bytes and the values, unchanged, before them. */
  method Encode<V>(data: seq<Item<V>>, s: nat, bytes: array<byte>) returns (offset: nat, vals: seq<V>)
    requires Encodable(data, s) && bytes.Length >= |KeyBytes(data, s)|
    modifies bytes
    ensures offset == |KeyBytes(data, s)| && bytes[..offset] == KeyBytes(data, s)
    ensures |vals| == |data| && forall i :: 0 <= i < |data| ==> vals[i] == data[i].val
  {
    hide Enc, GapBytes, Raw, Pow, Modulus;
    ghost var keys, all := Keys(data), KeyBytes(data, s);
    var prevKey, m := data[0].key, Modulus(s);
    var first := Raw(prevKey, s);
    forall i | 0 <= i < s { bytes[i] := first[i]; }
    vals := [data[0].val];
    offset := s;
    assert bytes[..s] == first && keys[0..] == keys;
    for i := 1 to |data|
      invariant prevKey == data[i - 1].key && offset <= bytes.Length
      invariant bytes[..offset] + GapBytes(keys[i - 1..], m) == all
      invariant |vals| == i && forall j :: 0 <= j < i ==> vals[j] == data[j].val
    {
      vals := vals + [data[i].val];
      var curKey := data[i].key;
      NextGap(keys, i, m);
      Append(bytes[..offset], Enc(Gap(prevKey, curKey, m)), GapBytes(keys[i..], m), all);
      offset := EncodeUnsigned(bytes, offset, Gap(prevKey, curKey, m));
      prevKey := curKey;
    }
    NoGap(keys, |data|, m);
  }

  lemma Append(done: seq<byte>, next: seq<byte>, rest: seq<byte>, all: seq<byte>)
    requires done + (next + rest) == all
    ensures |done| + |next| <= |all| && (done + next) + rest == all
  {
  }

  /** `decode`, with the function it applies collecting the entries. */
  method Decode<V>(bytes: array<byte>, vals: seq<V>, s: nat) returns (out: seq<Item<V>>)
    requires s <= bytes.Length && vals != [] && ReadGaps(Unraw(bytes[..s]), bytes[s..], |vals| - 1, Modulus(s)).Some?
    ensures |out| == |vals| && forall i :: 0 <= i < |out| ==> out[i].val == vals[i]
    ensures Keys(out) == [Unraw(bytes[..s])] + ReadGaps(Unraw(bytes[..s]), bytes[s..], |vals| - 1, Modulus(s)).value
  {
    var first := Unraw(bytes[..s]);
    ghost var rest;
    out, rest := DecodeRest(bytes, s, first, vals, Modulus(s));
    KeysAre(out, [first] + rest);
  }

  /** The keys and values of the entries. */
  ghost predicate Zips<V>(out: seq<Item<V>>, keys: seq<nat>, vals: seq<V>) {
    |out| == |keys| <= |vals| && forall j :: 0 <= j < |out| ==> out[j] == Item(keys[j], vals[j])
  }

  lemma ZipsMore<V>(out: seq<Item<V>>, keys: seq<nat>, vals: seq<V>, k: nat)
    requires Zips(out, keys, vals) && |out| < |vals|
    ensures Zips(out + [Item(k, vals[|out|])], keys + [k], vals)
  {
  }

  /** The loop of `decode`. */
  method DecodeRest<V>(bytes: array<byte>, start: nat, first: nat, vals: seq<V>, m: nat) returns (out: seq<Item<V>>, ghost rest: seq<nat>)
    requires start <= bytes.Length && vals != [] && m >= 1 && ReadGaps(first, bytes[start..], |vals| - 1, m).Some?
    ensures rest == ReadGaps(first, bytes[start..], |vals| - 1, m).value && |out| == |vals| == |rest| + 1
    ensures Zips(out, [first] + rest, vals)
  {
    hide ReadGaps, ReadsOn, Dec, Zips;
    var prevKey, at := first, start;
    out := [Item(first, vals[0])];
    ghost var keys: seq<nat> := [first];
    rest := ReadGaps(first, bytes[start..], |vals| - 1, m).value;
    ReadsStart(first, bytes[start..], vals, m);
    for i := 1 to |vals|
      invariant start <= at <= bytes.Length && |out| == i == |keys| && Zips(out, keys, vals)
      invariant ReadsOn(keys, prevKey, bytes[at..], |vals| - i, m, [first] + rest)
    {
      ReadsOnNow(keys, prevKey, bytes[at..], |vals| - i, m, [first] + rest);
      ghost var from, before := at, prevKey;
      prevKey, at := NextKey(bytes, at, prevKey, |vals| - i, m);
      ReadsOnNext(keys, before, bytes[from..], |vals| - i, m, [first] + rest, prevKey, bytes[at..]);
      ZipsMore(out, keys, vals, prevKey);
      out, keys := out + [Item(prevKey, vals[i])], keys + [prevKey];
    }
    ReadsOnEnd(keys, prevKey, bytes[at..], m, [first] + rest);
  }

  lemma ReadsStart<V>(first: nat, bs: seq<byte>, vals: seq<V>, m: nat)
    requires m >= 1 && vals != [] && ReadGaps(first, bs, |vals| - 1, m).Some?
    ensures ReadsOn([first], first, bs, |vals| - 1, m, [first] + ReadGaps(first, bs, |vals| - 1, m).value)
    ensures Zips([Item(first, vals[0])], [first], vals)
  {
  }

  /** After the keys, the rest of the result is still to be read. */
  ghost predicate ReadsOn(keys: seq<nat>, prev: nat, bs: seq<byte>, n: nat, m: nat, all: seq<nat>)
    requires m >= 1
  {
    ReadGaps(prev, bs, n, m).Some? && keys + ReadGaps(prev, bs, n, m).value == all
  }

  lemma ReadsOnNow(keys: seq<nat>, prev: nat, bs: seq<byte>, n: nat, m: nat, all: seq<nat>)
    requires m >= 1 && ReadsOn(keys, prev, bs, n, m, all)
    ensures ReadGaps(prev, bs, n, m).Some?
  {
  }

  lemma ReadsOnNext(keys: seq<nat>, prev: nat, bs: seq<byte>, n: nat, m: nat, all: seq<nat>, key: nat, bs': seq<byte>)
    requires m >= 1 && n > 0 && ReadsOn(keys, prev, bs, n, m, all) && ReadGaps(key, bs', n - 1, m).Some?
    requires ReadGaps(prev, bs, n, m).value == [key] + ReadGaps(key, bs', n - 1, m).value
    ensures ReadsOn(keys + [key], key, bs', n - 1, m, all)
  {
    hide ReadGaps;
  }

  lemma ReadsOnEnd(keys: seq<nat>, prev: nat, bs: seq<byte>, m: nat, all: seq<nat>)
    requires m >= 1 && ReadsOn(keys, prev, bs, 0, m, all)
    ensures keys == all
  {
  }

  lemma KeysAre<V>(data: seq<Item<V>>, keys: seq<nat>)
    requires |data| == |keys| && forall i :: 0 <= i < |data| ==> data[i].key == keys[i]
    ensures Keys(data) == keys
  {
  }

  /** `prev_key += decodeUnsigned(key_bytes)`. */
  method NextKey(bytes: array<byte>, at: nat, prev: nat, ghost n: nat, m: nat) returns (key: nat, next: nat)
    requires at <= bytes.Length && n > 0 && m >= 1 && ReadGaps(prev, bytes[at..], n, m).Some?
    ensures at <= next <= bytes.Length && ReadGaps(key, bytes[next..], n - 1, m).Some?
    ensures ReadGaps(prev, bytes[at..], n, m).value == [key] + ReadGaps(key, bytes[next..], n - 1, m).value
  {
    hide Dec, ReadGaps;
    ReadOne(prev, bytes[at..], n, m);
    var d;
    d, next := DecodeUnsigned(bytes, at, m);
    assert bytes[at..][next - at..] == bytes[next..];
    key := (prev + d) % m;
  }

  lemma ReadOne(prev: nat, bs: seq<byte>, n: nat, m: nat)
    requires m >= 1 && n > 0 && ReadGaps(prev, bs, n, m).Some?
    ensures Dec(bs).Some? && Dec(bs).value.1 <= |bs|
    ensures
      var p := Dec(bs).value;
      var key, rest := (prev + p.0 % m) % m, ReadGaps((prev + p.0 % m) % m, bs[p.1..], n - 1, m);
      rest.Some? && ReadGaps(prev, bs, n, m).value == [key] + rest.value
  {
  }

  /** What `encode` writes, `decode` reads back, if no two neighbouring keys are equal. */
  lemma RoundTrip<V>(data: seq<Item<V>>, s: nat, tail: seq<byte>)
    requires Encodable(data, s) && Differ(Keys(data))
    ensures var bytes := KeyBytes(data, s) + tail;
      Unraw(bytes[..s]) == data[0].key && ReadGaps(data[0].key, bytes[s..], |data| - 1, Modulus(s)) == Some(Keys(data)[1..])
  {
    hide Differ, GapBytes, ReadGaps, Raw, Pow, Unraw;
    var bytes := KeyBytes(data, s) + tail;
    RawReadBack(data[0].key, s);
    assert bytes[..s] == Raw(data[0].key, s) && bytes[s..] == GapBytes(Keys(data), Modulus(s)) + tail;
    GapsReadBack(Keys(data), tail, Modulus(s));
  }

  /** So the two methods, one after the other, give the block back. */
  method EncodeThenDecode<V>(data: seq<Item<V>>, s: nat, valSize: nat) returns (out: seq<Item<V>>)
    requires Encodable(data, s) && Differ(Keys(data))
    ensures out == data
  {
    hide Modulus, Differ;
    var n := EncodedSize(data, s, valSize);
    var bytes := new byte[n - |data| * valSize];
    var offset, vals := Encode(data, s, bytes);
    RoundTrip(data, s, []);
    assert bytes[..offset] == bytes[..] == KeyBytes(data, s) + [];
    assert bytes[..][..s] == bytes[..s] && bytes[..][s..] == bytes[s..];
    out := Decode(bytes, vals, s);
    assert Keys(out) == Keys(data);
    forall i | 0 <= i < |data| ensures out[i] == data[i] { assert Keys(out)[i] == Keys(data)[i]; }
  }
}
