/**
 Base64 as the code-signing module writes and reads it (the alphabet and padding of
 section 4 of RFC 4648). Shifts and masks on disjoint bit ranges are written as
 multiplication, division and remainder.
 */
module Base64 {
  import opened Wrappers
  import opened ByteOrder

  const PAD: Byte := 61

  type Sextet = v: int | 0 <= v < 64

  function Symbol(v: Sextet): Byte {
    if v < 26 then 65 + v
    else if v < 52 then 97 + (v - 26)
    else if v < 62 then 48 + (v - 52)
    else if v == 62 then 43 else 47
  }

  function SymbolValue(c: Byte): Option<Sextet> {
    if 65 <= c <= 90 then Some(c - 65)
    else if 97 <= c <= 122 then Some(c - 97 + 26)
    else if 48 <= c <= 57 then Some(c - 48 + 52)
    else if c == 43 then Some(62)
    else if c == 47 then Some(63)
    else None
  }

  lemma SymbolInverse(v: Sextet)
    ensures SymbolValue(Symbol(v)) == Some(v) && Symbol(v) != PAD
  {
  }

  function Head<T>(n: nat, s: seq<T>): seq<T> {
    if |s| <= n then s else s[..n]
  }

  function Tail<T>(n: nat, s: seq<T>): (t: seq<T>)
    ensures s != [] && n > 0 ==> |t| < |s|
  {
    if |s| <= n then [] else s[n..]
  }

  // ------------------------------------------------------------------------------- encoding

  /** The 24-bit group of a chunk, missing bytes counting as zero. */
  function Triple(chunk: Bytes): (t: nat)
    requires 1 <= |chunk| <= 3
    ensures t < 16777216
  {
    var b0: int := chunk[0];
    var b1: int := if |chunk| > 1 then chunk[1] else 0;
    var b2: int := if |chunk| > 2 then chunk[2] else 0;
    b0 * 65536 + b1 * 256 + b2
  }

  function EncodeChunk(chunk: Bytes): (r: Bytes)
    requires 1 <= |chunk| <= 3
    ensures |r| == 4
  {
    var t := Triple(chunk);
    [ Symbol(t / 262144 % 64),
      Symbol(t / 4096 % 64),
      if |chunk| > 1 then Symbol(t / 64 % 64) else PAD,
      if |chunk| > 2 then Symbol(t % 64) else PAD ]
  }

  function Encode(data: Bytes): Bytes
    decreases |data|
  {
    if data == [] then [] else EncodeChunk(Head(3, data)) + Encode(Tail(3, data))
  }

  // ------------------------------------------------------------------------------- decoding

  function WithoutPadding(s: Bytes): (r: Bytes)
    ensures PAD !in r
  {
    if s == [] then [] else (if s[0] != PAD then [s[0]] else []) + WithoutPadding(s[1..])
  }

  /** `val << (18 - i * 6)` */
  function Placed(v: int, i: nat): int {
    v * (if i == 0 then 262144 else if i == 1 then 4096 else if i == 2 then 64 else 1)
  }

  /** The 24-bit group a chunk of up to four symbols denotes, missing symbols counting as zero. */
  function Group(chunk: Bytes): Option<nat>
    requires |chunk| <= 4
  {
    if chunk == [] then Some(0)
    else
      var n := |chunk| - 1;
      match (Group(chunk[..n]), SymbolValue(chunk[n]))
      case (Some(g), Some(v)) => Some(g + Placed(v, n))
      case _ => None
  }

  function GroupBytes(g: nat, symbols: nat): Bytes {
    [g / 65536 % 256] + (if symbols > 2 then [g / 256 % 256] else []) + (if symbols > 3 then [g % 256] else [])
  }

  function DecodeChunk(chunk: Bytes): Option<Bytes>
    requires 1 <= |chunk| <= 4
  {
    match Group(chunk)
    case None => None
    case Some(g) => Some(GroupBytes(g, |chunk|))
  }

  function DecodeChunks(s: Bytes): Option<Bytes>
    decreases |s|
  {
    if s == [] then Some([])
    else
      match DecodeChunk(Head(4, s))
      case None => None
      case Some(bytes) =>
        match DecodeChunks(Tail(4, s))
        case None => None
        case Some(rest) => Some(bytes + rest)
  }

  function Decode(s: Bytes): Option<Bytes> {
    DecodeChunks(WithoutPadding(s))
  }

  // ------------------------------------------------------------------------------ round trip

  /** The group that two to four symbol values make up. */
  function Sum(v: seq<Sextet>): nat
    requires 2 <= |v| <= 4
  {
    Placed(v[0], 0) + Placed(v[1], 1)
    + (if |v| > 2 then Placed(v[2], 2) else 0) + (if |v| > 3 then Placed(v[3], 3) else 0)
  }

  function SymbolsFor(v: seq<Sextet>): Bytes {
    seq(|v|, i requires 0 <= i < |v| => Symbol(v[i]))
  }

  lemma GroupOf(v: seq<Sextet>)
    requires 2 <= |v| <= 4
    ensures Group(SymbolsFor(v)) == Some(Sum(v))
  {
    var chunk := SymbolsFor(v);
    forall i | 0 <= i < |v|
      ensures SymbolValue(chunk[i]) == Some(v[i])
    {
      SymbolInverse(v[i]);
    }
    assert Group(chunk[..0]) == Some(0);
    assert chunk[..1][..0] == chunk[..0] && chunk[..2][..1] == chunk[..1];
    assert Group(chunk[..2]) == Some(Sum(v[..2]));
    if |v| > 2 {
      assert chunk[..3][..2] == chunk[..2];
      assert Group(chunk[..3]) == Some(Sum(v[..3]));
    }
    assert chunk[..|v|] == chunk;
  }

  /** The symbol values of an encoded chunk, without padding. */
  function Sextets(chunk: Bytes): (v: seq<Sextet>)
    requires 1 <= |chunk| <= 3
    ensures |v| == |chunk| + 1
  {
    var t := Triple(chunk);
    [t / 262144 % 64, t / 4096 % 64]
    + (if |chunk| > 1 then [t / 64 % 64] else []) + (if |chunk| > 2 then [t % 64] else [])
  }

  lemma StripChunk(chunk: Bytes)
    requires 1 <= |chunk| <= 3
    ensures WithoutPadding(EncodeChunk(chunk)) ==
            SymbolsFor(Sextets(chunk))
  {
    var e := EncodeChunk(chunk);
    var v := Sextets(chunk);
    SymbolInverse(v[0]);
    SymbolInverse(v[1]);
    if |chunk| > 1 {
      SymbolInverse(v[2]);
    }
    if |chunk| > 2 {
      SymbolInverse(v[3]);
    }
    assert e == [e[0]] + ([e[1]] + ([e[2]] + [e[3]]));
    StripConcat([e[0]], [e[1]] + ([e[2]] + [e[3]]));
    StripConcat([e[1]], [e[2]] + [e[3]]);
    StripConcat([e[2]], [e[3]]);
  }

  lemma {:induction false} StripConcat(a: Bytes, b: Bytes)
    ensures WithoutPadding(a + b) == WithoutPadding(a) + WithoutPadding(b)
  {
    if a == [] {
      assert a + b == b;
    } else {
      assert (a + b)[1..] == a[1..] + b;
      StripConcat(a[1..], b);
    }
  }

  lemma ChunkRoundTrip(chunk: Bytes)
    requires 1 <= |chunk| <= 3
    ensures 1 <= |WithoutPadding(EncodeChunk(chunk))| == |chunk| + 1
    ensures DecodeChunk(WithoutPadding(EncodeChunk(chunk))) == Some(chunk)
  {
    StripChunk(chunk);
    GroupOf(Sextets(chunk));
    SextetsSum(chunk);
    TripleHoldsBytes(chunk);
  }

  lemma SplitGroup(t: nat)
    requires t < 16777216
    ensures t == t / 262144 % 64 * 262144 + t / 4096 % 64 * 4096 + t / 64 % 64 * 64 + t % 64
  {
    var a := t / 64;
    var b := a / 64;
    assert b == t / 4096 && b / 64 == t / 262144;
    assert t == a * 64 + t % 64 && a == b * 64 + a % 64 && b == b / 64 * 64 + b % 64;
  }

  /** With its low twelve bits clear, a group is in its first two sextets. */
  lemma TwoSextetsSuffice(k: nat)
    requires k < 4096
    ensures var t := 4096 * k; t == t / 262144 % 64 * 262144 + t / 4096 % 64 * 4096
  {
    var t := 4096 * k;
    assert t == 64 * (64 * k);
    assert t % 64 == 0 && t / 64 == 64 * k;
    SplitGroup(t);
  }

  /** With its low six bits clear, a group is in its first three sextets. */
  lemma ThreeSextetsSuffice(k: nat)
    requires k < 262144
    ensures var t := 64 * k; t == t / 262144 % 64 * 262144 + t / 4096 % 64 * 4096 + t / 64 % 64 * 64
  {
    var t := 64 * k;
    assert t % 64 == 0;
    SplitGroup(t);
  }

  /** The sextets of a chunk make up its group. */
  lemma SextetsSum(chunk: Bytes)
    requires 1 <= |chunk| <= 3
    ensures Sum(Sextets(chunk)) == Triple(chunk)
  {
    var b0: int := chunk[0];
    if |chunk| == 1 {
      assert Triple(chunk) == 4096 * (b0 * 16);
      TwoSextetsSuffice(b0 * 16);
    } else if |chunk| == 2 {
      var b1: int := chunk[1];
      assert Triple(chunk) == 64 * (b0 * 1024 + b1 * 4);
      ThreeSextetsSuffice(b0 * 1024 + b1 * 4);
    } else {
      SplitGroup(Triple(chunk));
    }
  }

  lemma {:induction false} GroupHoldsBytes(b0: int, b1: int, b2: int)
    requires 0 <= b0 < 256 && 0 <= b1 < 256 && 0 <= b2 < 256
    ensures var t := b0 * 65536 + b1 * 256 + b2;
      t / 65536 % 256 == b0 && t / 256 % 256 == b1 && t % 256 == b2
  {
    var t := b0 * 65536 + b1 * 256 + b2;
    assert t / 256 == b0 * 256 + b1;
    assert t / 65536 == b0;
  }

  lemma TripleHoldsBytes(chunk: Bytes)
    requires 1 <= |chunk| <= 3
    ensures GroupBytes(Triple(chunk), |chunk| + 1) == chunk
  {
    GroupHoldsBytes(chunk[0], if |chunk| > 1 then chunk[1] else 0, if |chunk| > 2 then chunk[2] else 0);
  }

  /** Decoding what was encoded gives the data back, for every byte sequence. */
  lemma {:induction false} RoundTrip(data: Bytes)
    ensures Decode(Encode(data)) == Some(data)
    decreases |data|
  {
    if data == [] {
    } else {
      var (chunk, rest) := (Head(3, data), Tail(3, data));
      var stripped := WithoutPadding(EncodeChunk(chunk));
      var s := stripped + WithoutPadding(Encode(rest));
      StripConcat(EncodeChunk(chunk), Encode(rest));
      ChunkRoundTrip(chunk);
      RoundTrip(rest);
      if rest == [] {
        assert s == stripped;
        assert Head(4, s) == stripped && Tail(4, s) == [];
      } else {
        assert Head(4, s) == stripped && Tail(4, s) == WithoutPadding(Encode(rest));
      }
      assert chunk + rest == data;
    }
  }

  // --------------------------------------------------------------------------- what fails

  ghost predicate Foreign(s: Bytes) {
    exists c :: c in s && c != PAD && SymbolValue(c).None?
  }

  lemma {:induction false} GroupFails(chunk: Bytes)
    requires |chunk| <= 4
    ensures Group(chunk).None? <==> exists c :: c in chunk && SymbolValue(c).None?
  {
    if chunk == [] {
    } else {
      GroupFails(chunk[..|chunk| - 1]);
      assert chunk == chunk[..|chunk| - 1] + [chunk[|chunk| - 1]];
    }
  }

  lemma {:induction false} ChunksFail(s: Bytes)
    ensures DecodeChunks(s).None? <==> exists c :: c in s && SymbolValue(c).None?
    decreases |s|
  {
    if s == [] {
    } else {
      var (h, t) := (Head(4, s), Tail(4, s));
      GroupFails(h);
      ChunksFail(t);
      assert s == h + t;
    }
  }

  lemma {:induction false} StripMembers(s: Bytes, c: Byte)
    ensures c in WithoutPadding(s) <==> c in s && c != PAD
  {
    if s == [] {
    } else {
      StripMembers(s[1..], c);
      assert s == [s[0]] + s[1..];
    }
  }

  /** Decoding fails exactly on a character that is neither padding nor in the alphabet; padding may stand anywhere. */
  lemma DecodeFailsIffForeign(s: Bytes)
    ensures Decode(s).None? <==> Foreign(s)
  {
    ChunksFail(WithoutPadding(s));
    forall c: Byte
      ensures c in WithoutPadding(s) <==> c in s && c != PAD
    {
      StripMembers(s, c);
    }
  }

  // -------------------------------------------------------------------------------- the loops

  lemma EncodeStep(data: Bytes, i: nat, result: Bytes)
    requires i < |data|
    ensures var chunk := Head(3, data[i..]);
      && i + |chunk| <= |data|
      && result + Encode(data[i..]) == result + EncodeChunk(chunk) + Encode(data[i + |chunk|..])
  {
    var chunk := Head(3, data[i..]);
    assert Tail(3, data[i..]) == data[i + |chunk|..];
  }

  method Base64Encode(data: Bytes) returns (result: Bytes)
    ensures result == Encode(data)
  {
    result := [];
    var i := 0;
    assert data[0..] == data;
    while i < |data|
      invariant 0 <= i <= |data|
      invariant result + Encode(data[i..]) == Encode(data)
    {
      var chunk := Head(3, data[i..]);
      EncodeStep(data, i, result);
      result := result + EncodeChunk(chunk);
      i := i + |chunk|;
    }
    assert data[i..] == [];
  }

  method Base64Decode(s: Bytes) returns (result: Option<Bytes>)
    ensures result == Decode(s)
  {
    var chars := WithoutPadding(s);
    var bytes: Bytes := [];
    var i := 0;
    assert chars[0..] == chars;
    assert forall rest: Bytes :: [] + rest == rest;
    while i < |chars|
      invariant 0 <= i <= |chars|
      invariant Decode(s) ==
        match DecodeChunks(chars[i..]) case None => None case Some(rest) => Some(bytes + rest)
    {
      var chunk := Head(4, chars[i..]);
      assert Tail(4, chars[i..]) == chars[i + |chunk|..];
      match DecodeChunk(chunk) {
        case None => return None;
        case Some(more) =>
          assert forall rest: Bytes :: bytes + (more + rest) == bytes + more + rest;
          bytes := bytes + more;
      }
      i := i + |chunk|;
    }
    assert chars[i..] == [] && bytes + [] == bytes;
    return Some(bytes);
  }

  // -------------------------------------------------------------------------------- layout

  /** How many padding characters the encoding of `n` bytes ends in. */
  function Pads(n: nat): nat {
    (3 - n % 3) % 3
  }

  lemma ChunkPadding(chunk: Bytes, i: nat)
    requires 1 <= |chunk| <= 3 && i < 4
    ensures EncodeChunk(chunk)[i] == PAD <==> i >= |chunk| + 1
  {
    var t := Triple(chunk);
    SymbolInverse(t / 262144 % 64);
    SymbolInverse(t / 4096 % 64);
    SymbolInverse(t / 64 % 64);
    SymbolInverse(t % 64);
  }

  lemma {:induction false} EncodedLength(data: Bytes)
    ensures |Encode(data)| == 4 * ((|data| + 2) / 3)
    decreases |data|
  {
    if data == [] {
    } else {
      EncodedLength(Tail(3, data));
    }
  }

  lemma PadsOfRest(n: nat)
    requires n > 0
    ensures n <= 3 ==> Pads(n) == 3 - n && (n + 2) / 3 == 1
    ensures n > 3 ==> Pads(n) == Pads(n - 3) <= 2 && (n + 2) / 3 == 1 + (n - 3 + 2) / 3 >= 2
  {
  }

  /** Padding stands only at the end, and there as often as the last group lacks bytes. */
  lemma {:induction false} PaddingAtEnd(data: Bytes, i: nat)
    requires i < |Encode(data)|
    ensures Encode(data)[i] == PAD <==> i >= |Encode(data)| - Pads(|data|)
    decreases |data|
  {
    var (chunk, rest) := (Head(3, data), Tail(3, data));
    EncodedLength(rest);
    PadsOfRest(|data|);
    assert |Encode(data)| == 4 + |Encode(rest)|;
    if i < 4 {
      ChunkPadding(chunk, i);
      assert Encode(data)[i] == EncodeChunk(chunk)[i];
    } else {
      PaddingAtEnd(rest, i - 4);
      assert Encode(data)[i] == Encode(rest)[i - 4];
    }
  }

  /** "foobar" and its beginnings, as section 10 of RFC 4648 lists them, and the last two symbols. */
  lemma {:induction false} KnownChunks()
    ensures EncodeChunk([102]) == [90, 103, PAD, PAD]            // "f" is "Zg=="
    ensures EncodeChunk([102, 111]) == [90, 109, 56, PAD]        // "fo" is "Zm8="
    ensures EncodeChunk([102, 111, 111]) == [90, 109, 57, 118]   // "foo" is "Zm9v"
    ensures EncodeChunk([98, 97, 114]) == [89, 109, 70, 121]     // "bar" is "YmFy"
    ensures EncodeChunk([251, 255, 191]) == [43, 47, 43, 47]     // "+/+/"
  {
    assert Triple([102]) == 6684672 && Triple([102, 111]) == 6713088 && Triple([102, 111, 111]) == 6713199;
    assert Triple([98, 97, 114]) == 6447474 && Triple([251, 255, 191]) == 16515007;
  }

  /** Chunks of three are encoded one after the other. */
  lemma ChunksInOrder(chunk: Bytes, rest: Bytes)
    requires |chunk| == 3
    ensures Encode(chunk + rest) == EncodeChunk(chunk) + Encode(rest)
  {
    assert Head(3, chunk + rest) == chunk && Tail(3, chunk + rest) == rest;
  }

  /** Four symbols decode to three bytes, and a rest of one, two or three symbols to one, one or two. */
  lemma {:induction false} DecodedLength(s: Bytes)
    requires DecodeChunks(s).Some?
    ensures |DecodeChunks(s).value| ==
            3 * (|s| / 4) + (if |s| % 4 == 0 then 0 else if |s| % 4 == 3 then 2 else 1)
    decreases |s|
  {
    if s == [] {
    } else {
      DecodedLength(Tail(4, s));
    }
  }
}
