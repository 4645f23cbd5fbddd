/** RLP: the encoders of the EVM signer, and the decoder of Appendix B of the Yellow Paper. */
module Rlp {
  import opened Bytes
  import opened Positional
  import opened Records

  /** A number in big-endian bytes without leading zeros; zero has none. */
  function BigEndian(n: nat): (bs: Bytes)
    ensures n == 0 <==> bs == []
    ensures n > 0 ==> bs[0] != 0
  {
    Minimal(256, n)
  }

  // ----- the encoders -----

  function ToBe8(n: u64): (bs: Bytes)
    ensures |bs| == 8
  {
    Fixed(256, n, 8)
  }

  /** Index of the first non-zero byte, or 7. */
  function FirstNonZero(bs: Bytes): nat {
    var z := LeadingZeros(bs);
    if z == |bs| then 7 else z
  }

  function EncodeLength(len: u64): (bs: Bytes)
    ensures |bs| <= 8
  {
    if len == 0 then [] else ToBe8(len)[FirstNonZero(ToBe8(len))..]
  }

  function EncodeItem(data: Blob): Bytes {
    if |data| == 1 && data[0] < 0x80 then data
    else if data == [] then [0x80]
    else if |data| <= 55 then [0x80 + |data|] + data
    else [0xb7 + |EncodeLength(|data|)|] + EncodeLength(|data|) + data
  }

  function EncodeU64(value: u64): Bytes {
    if value == 0 then EncodeItem([]) else EncodeItem(ToBe8(value)[FirstNonZero(ToBe8(value))..])
  }

  type Word256 = b: Bytes | |b| == 32 witness Zeros(32)

  function EncodeU256(value: Word256): Bytes {
    if LeadingZeros(value) < 32 then EncodeItem(value[LeadingZeros(value)..]) else EncodeItem([])
  }

  type Blob = b: Bytes | |b| < 0x1_0000_0000_0000_0000 witness []

  method EncodeList(items: seq<Bytes>) returns (result: Bytes)
    requires |Concat(items)| < 0x1_0000_0000_0000_0000
    ensures result == Prefix(0xc0, |Concat(items)|) + Concat(items)
  {
    var payload: Bytes := [];
    ConcatAll(items);
    for i := 0 to |items|
      invariant payload == Concat(items[..i])
    {
      ConcatNext(items, i);
      payload := payload + items[i];
    }
    if |payload| <= 55 {
      result := [0xc0 + |payload|];
      result := result + payload;
    } else {
      LengthIsMinimal(|payload|);
      PrefixRange(0xc0, |payload|);
      var lenBytes := EncodeLength(|payload|);
      result := [0xf7 + |lenBytes|];
      result := result + lenBytes;
      result := result + payload;
    }
  }

  function Itself(item: Bytes): Bytes { item }

  function Concat(items: seq<Bytes>): Bytes {
    Each(Itself, items)
  }

  lemma ConcatAll(items: seq<Bytes>)
    ensures Concat(items[..0]) == [] && Concat(items[..|items|]) == Concat(items)
  {
    EachAll(Itself, items);
  }

  lemma ConcatNext(items: seq<Bytes>, i: nat)
    requires i < |items|
    ensures Concat(items[..i + 1]) == Concat(items[..i]) + items[i]
  {
    EachNext(Itself, items, i);
  }

  // ----- numbers in minimal big-endian form -----

  /** Dropping leading zeros gives the minimal form of the number. */
  lemma StrippedIsMinimal(bs: Bytes)
    ensures bs[LeadingZeros(bs)..] == BigEndian(Value(256, bs))
  {
    hide Value, Minimal, LeadingZeros;
    SplitZeros(bs);
    ValueAfterZeros(256, Zeros(LeadingZeros(bs)), bs[LeadingZeros(bs)..]);
    MinimalOfValue(256, bs[LeadingZeros(bs)..]);
  }

  lemma Powers256()
    ensures Pow(256, 8) == 0x1_0000_0000_0000_0000
  {
    assert Pow(256, 2) == 0x1_0000;
    PowAdd(256, 2, 2);
    PowAdd(256, 4, 4);
  }

  lemma LengthIsMinimal(n: u64)
    ensures EncodeLength(n) == BigEndian(n)
    ensures |BigEndian(n)| <= 8
    ensures n > 0 ==> ToBe8(n)[FirstNonZero(ToBe8(n))..] == BigEndian(n)
  {
    hide Value, Minimal, Fixed, LeadingZeros, Pow;
    Powers256();
    MinimalLength(256, n, 8);
    ValueOfFixed(256, n, 8);
    StrippedIsMinimal(ToBe8(n));
  }

  lemma ValueOfBigEndian(n: nat)
    ensures Value(256, BigEndian(n)) == n
  {
    ValueOfMinimal(256, n);
  }

  lemma BigEndianOfValue(bs: Bytes)
    requires bs != [] ==> bs[0] != 0
    ensures BigEndian(Value(256, bs)) == bs
  {
    MinimalOfValue(256, bs);
  }

  /** Integers of both widths are encoded as their minimal big-endian form. */
  lemma IntegersAreMinimal(n: u64, w: Word256)
    ensures |BigEndian(n)| <= 8 && EncodeU64(n) == EncodeItem(BigEndian(n))
    ensures |BigEndian(Value(256, w))| <= 32 && EncodeU256(w) == EncodeItem(BigEndian(Value(256, w)))
  {
    hide Value, BigEndian, Fixed, LeadingZeros, EncodeItem, Pow;
    LengthIsMinimal(n);
    StrippedIsMinimal(w);
  }

  // ----- the trees that RLP writes down -----

  datatype Tree = Str(bytes: Bytes) | Lst(items: seq<Tree>)

  /** The prefix of a string (from 0x80) or a list (from 0xc0); a longer length than 64 bits has no meaning. */
  function Prefix(base: byte, n: nat): (p: Bytes)
    requires base == 0x80 || base == 0xc0
    ensures p != []
  {
    if n <= 55 then [base + n] else [if |BigEndian(n)| <= 8 then base + 55 + |BigEndian(n)| else 0] + BigEndian(n)
  }

  lemma PrefixRange(base: byte, n: u64)
    requires base == 0x80 || base == 0xc0
    ensures base <= Prefix(base, n)[0] <= base + 63
    ensures n > 55 ==> Prefix(base, n) == [base + 55 + |BigEndian(n)|] + BigEndian(n)
  {
    hide BigEndian;
    LengthIsMinimal(n);
  }

  predicate SingleByte(b: Bytes) {
    |b| == 1 && b[0] < 0x80
  }

  function Encode(t: Tree): (bs: Bytes)
    ensures bs != []
    decreases t, 0
  {
    match t
    case Str(b) => if SingleByte(b) then b else Prefix(0x80, |b|) + b
    case Lst(items) => Prefix(0xc0, |EncodeAll(items)|) + EncodeAll(items)
  }

  function EncodeAll(items: seq<Tree>): Bytes
    decreases items, 1
  {
    if items == [] then [] else Encode(items[0]) + EncodeAll(items[1..])
  }

  /** Trees whose every length is a machine word. */
  predicate Fits(t: Tree) {
    match t
    case Str(b) => |b| < 0x1_0000_0000_0000_0000
    case Lst(items) => (forall x | x in items :: Fits(x)) && |EncodeAll(items)| < 0x1_0000_0000_0000_0000
  }

  /** The item encoder of the source writes string leaves. */
  lemma ItemIsString(data: Blob)
    ensures EncodeItem(data) == Encode(Str(data))
  {
    LengthIsMinimal(|data|);
    PrefixRange(0x80, |data|);
  }

  // ----- the decoder -----

  /** A payload behind its prefix; only the shortest prefix is accepted. */
  function TakePayload(base: byte, s: Bytes): (r: Option<(Bytes, Bytes)>)
    requires base == 0x80 || base == 0xc0
    requires s != [] && base <= s[0] <= base + 63
    ensures r.Some? ==> |r.value.0| + |r.value.1| < |s|
  {
    if s[0] <= base + 55 then Take(s[1..], s[0] - base)
    else
      match Take(s[1..], s[0] - base - 55)
      case None => None
      case Some((len, rest)) =>
        if len[0] == 0 || Value(256, len) <= 55 then None else Take(rest, Value(256, len))
  }

  function Decode(s: Bytes): (r: Option<(Tree, Bytes)>)
    ensures r.Some? ==> |r.value.1| < |s|
    decreases |s|, 0
  {
    if s == [] then None
    else if s[0] < 0x80 then Some((Str(s[..1]), s[1..]))
    else if s[0] < 0xc0 then
      match TakePayload(0x80, s)
      case None => None
      case Some((b, rest)) => if SingleByte(b) then None else Some((Str(b), rest))
    else
      match TakePayload(0xc0, s)
      case None => None
      case Some((payload, rest)) =>
        match DecodeAll(payload)
        case None => None
        case Some(items) => Some((Lst(items), rest))
  }

  function DecodeAll(s: Bytes): (r: Option<seq<Tree>>)
    decreases |s|, 1
  {
    if s == [] then Some([])
    else
      match Decode(s)
      case None => None
      case Some((first, rest)) =>
        match DecodeAll(rest)
        case None => None
        case Some(others) => Some([first] + others)
  }

  // ----- decoder and encoder are inverse -----

  lemma PayloadInverts(base: byte, p: Blob, rest: Bytes)
    requires base == 0x80 || base == 0xc0
    ensures var s := Prefix(base, |p|) + p + rest;
            base <= s[0] <= base + 63 && TakePayload(base, s) == Some((p, rest))
  {
    hide BigEndian, Value, Take;
    var n := |p|;
    var s := Prefix(base, n) + p + rest;
    PrefixRange(base, n);
    TakeConcat(p, rest);
    if n <= 55 {
      assert s[1..] == p + rest;
    } else {
      LengthIsMinimal(n);
      var len := BigEndian(n);
      assert s[1..] == len + (p + rest);
      TakeConcat(len, p + rest);
      ValueOfBigEndian(n);
    }
  }

  lemma PayloadCanonical(base: byte, s: Bytes, p: Bytes, rest: Bytes)
    requires base == 0x80 || base == 0xc0
    requires s != [] && base <= s[0] <= base + 63
    requires TakePayload(base, s) == Some((p, rest))
    ensures |p| < 0x1_0000_0000_0000_0000 && s == Prefix(base, |p|) + p + rest
  {
    hide BigEndian, Value, Pow, Prefix, Take;
    if s[0] > base + 55 {
      var (len, tail) := Take(s[1..], s[0] - base - 55).value;
      BigEndianOfValue(len);
      LongLength(len);
      PrefixRange(base, Value(256, len));
      HeadTail(s, len, p, rest);
    } else {
      ShortPrefix(base, |p|);
      HeadTail(s, [], p, rest);
    }
  }

  lemma ShortPrefix(base: byte, n: nat)
    requires (base == 0x80 || base == 0xc0) && n <= 55
    ensures Prefix(base, n) == [base + n] + []
  {
  }

  lemma HeadTail(s: Bytes, a: Bytes, b: Bytes, c: Bytes)
    requires s != [] && s[1..] == a + (b + c)
    ensures s == [s[0]] + a + b + c
  {
    assert s == [s[0]] + s[1..];
  }

  lemma LongLength(len: Bytes)
    requires |len| <= 8
    ensures Value(256, len) < 0x1_0000_0000_0000_0000
  {
    hide Value;
    ValueBound(256, len);
    Powers256();
    PowMono(256, |len|, 8);
  }

  lemma {:induction false} PowMono(base: nat, j: nat, k: nat)
    requires base > 0 && j <= k
    ensures Pow(base, j) <= Pow(base, k)
    decreases k
  {
    if j < k {
      PowMono(base, j, k - 1);
      PowPositive(base, k - 1);
      MulMono(1, base, Pow(base, k - 1));
    }
  }

  lemma {:induction false} DecodeEncode(t: Tree, rest: Bytes)
    requires Fits(t)
    ensures Decode(Encode(t) + rest) == Some((t, rest))
    decreases t, 0
  {
    hide TakePayload;
    match t
    case Str(b) =>
      if SingleByte(b) {
        assert (b + rest)[..1] == b && (b + rest)[1..] == rest;
      } else {
        PayloadInverts(0x80, b, rest);
      }
    case Lst(items) =>
      var payload := EncodeAll(items);
      PayloadInverts(0xc0, payload, rest);
      DecodeEncodeAll(items);
  }

  lemma {:induction false} DecodeEncodeAll(items: seq<Tree>)
    requires forall x | x in items :: Fits(x)
    ensures DecodeAll(EncodeAll(items)) == Some(items)
    decreases items, 1
  {
    hide Encode, Decode;
    if items != [] {
      assert items[0] in items;
      DecodeEncode(items[0], EncodeAll(items[1..]));
      DecodeEncodeAll(items[1..]);
      assert items == [items[0]] + items[1..];
    }
  }

  /** The decoder accepts nothing but encodings. */
  lemma {:induction false} EncodeDecode(s: Bytes, t: Tree, rest: Bytes)
    requires Decode(s) == Some((t, rest))
    ensures Fits(t) && s == Encode(t) + rest
    decreases |s|, 0
  {
    hide TakePayload, Prefix;
    if s[0] < 0x80 {
      assert s == s[..1] + s[1..];
    } else if s[0] < 0xc0 {
      PayloadCanonical(0x80, s, t.bytes, rest);
    } else {
      var payload := TakePayload(0xc0, s).value.0;
      PayloadCanonical(0xc0, s, payload, rest);
      EncodeDecodeAll(payload, t.items);
    }
  }

  lemma {:induction false} EncodeDecodeAll(s: Bytes, items: seq<Tree>)
    requires DecodeAll(s) == Some(items)
    ensures (forall x | x in items :: Fits(x)) && s == EncodeAll(items)
    decreases |s|, 1
  {
    hide Encode, Decode, Fits;
    if s != [] {
      var (first, rest) := Decode(s).value;
      EncodeDecode(s, first, rest);
      EncodeDecodeAll(rest, items[1..]);
      assert items == [first] + items[1..];
    }
  }

  /** RLP is uniquely decodable: no encoding is a proper prefix of another. */
  lemma PrefixFree(a: Tree, t: Bytes, b: Tree, u: Bytes)
    requires Fits(a) && Fits(b) && Encode(a) + t == Encode(b) + u
    ensures a == b && t == u
  {
    hide Encode, Decode;
    DecodeEncode(a, t);
    DecodeEncode(b, u);
  }

  // ----- the forms with their prefix bytes -----

  /** The prefix bytes of the Ethereum wire format: 0x80 and 0xc0 up to 55 bytes, above that 0xb7 and 0xf7 plus the
      size of the length, which follows in big-endian digits without leading zero. */
  lemma WireForms(b: Bytes, items: seq<Tree>, len: Bytes)
    requires len != [] && len[0] != 0 && |len| <= 8
    ensures |b| == 1 && b[0] <= 0x7f ==> Encode(Str(b)) == b
    ensures |b| <= 55 && !(|b| == 1 && b[0] <= 0x7f) ==> Encode(Str(b)) == [0x80 + |b|] + b
    ensures |b| > 55 && Value(256, len) == |b| ==> Encode(Str(b)) == [0xb7 + |len|] + len + b
    ensures var p := EncodeAll(items);
            && (|p| <= 55 ==> Encode(Lst(items)) == [0xc0 + |p|] + p)
            && (|p| > 55 && Value(256, len) == |p| ==> Encode(Lst(items)) == [0xf7 + |len|] + len + p)
  {
    hide BigEndian, Value, EncodeAll;
    BigEndianOfValue(len);
  }

  /** Items follow each other in their order, and the empty list has none. */
  lemma ItemsInOrder(first: Tree, others: seq<Tree>)
    ensures EncodeAll([]) == [] && EncodeAll([first] + others) == Encode(first) + EncodeAll(others)
    ensures Encode(Str([])) == [0x80] && Encode(Lst([])) == [0xc0]
  {
    assert ([first] + others)[1..] == others;
  }
}
