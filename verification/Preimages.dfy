/** The byte strings that are hashed into keys, commitments, nullifiers, addresses and token
types. Distinct objects, of the same or of different kinds, never share one. */
module Preimages {
  import opened Basics
  import opened Bytes
  import opened Values
  import opened BinaryRepr
  import FixedPoint

  type Hash = b: seq<Byte> | |b| == 32 witness seq(32, _ => 0)

  /** A compressed point of section 2.3.3 of SEC 1. */
  type Point = b: seq<Byte> | |b| == 33 witness seq(33, _ => 0)

  function Ascii(s: string): (b: seq<Byte>)
    ensures |b| == |s|
  {
    seq(|s|, i requires 0 <= i < |s| => s[i] as int % 256)
  }

  datatype Coin = Coin(nonce: Hash, tokenType: Hash, value: FixedPoint.U128)

  /** A user, by public or secret key, or a contract. */
  datatype Party = User(key: Hash) | Contract(address: Hash)

  datatype Object =
    | PublicKey(secretKey: Hash)
    | Commitment(coin: Coin, recipient: Party)
    | Nullifier(coin: Coin, sender: Party)
    | SchnorrAddress(key: Hash)
    | EcdsaAddress(point: Point)
    | TokenType(domainSep: Hash, contract: Hash)

  // ----- layouts -----

  /** The derived representation of a coin: its fields in order, the value little-endian. */
  function CoinBytes(c: Coin): seq<Byte> { c.nonce + c.tokenType + ToLe(c.value, 16) }

  /** (true, key) for a user, (false, address) for a contract. */
  function PartyBytes(p: Party): seq<Byte> {
    match p case User(key) => [1] + key case Contract(address) => [0] + address
  }

  function Zeroes(n: nat): seq<Byte> { seq(n, _ => 0) }

  function Layout(o: Object): seq<Byte> {
    match o
    case PublicKey(sk) => Ascii("midnight:zswap-pk[v1]") + sk
    case Commitment(c, r) => Ascii("midnight:zswap-cc[v1]") + (CoinBytes(c) + PartyBytes(r))
    case Nullifier(c, s) => Ascii("midnight:zswap-cn[v1]") + (CoinBytes(c) + PartyBytes(s))
    case SchnorrAddress(k) => k
    case EcdsaAddress(p) => Ascii("midnight:ecdsa:") + p
    case TokenType(d, c) => Ascii("midnight:derive_token") + Zeroes(11) + (d + c)
  }

  // ----- the code that fills the buffers -----

  const COIN := Struct([Array(32), Array(32), Integer(16, false)])
  const PARTY := Struct([Bool, Array(32)])
  const HASH_PAIR := Struct([Array(32), Array(32)])

  function CoinValue(c: Coin): Value { Record([Raw(c.nonce), Raw(c.tokenType), Int(c.value)]) }

  function PartyValue(p: Party): Value {
    match p case User(key) => Record([Int(1), Raw(key)]) case Contract(address) => Record([Int(0), Raw(address)])
  }

  lemma ReprTwo(v: Value, w: Value, s: Type, t: Type)
    requires HasType(v, s) && HasType(w, t)
    ensures HasType(Record([v, w]), Struct([s, t])) && Repr(Record([v, w]), Struct([s, t])) == Repr(v, s) + Repr(w, t)
  {
    assert [v, w][1..] == [w] && [s, t][1..] == [t] && [w][1..] == [] && [t][1..] == [];
    assert ReprFields([w], [t]) == Repr(w, t) + ReprFields([], []);
    assert ReprFields([v, w], [s, t]) == Repr(v, s) + ReprFields([w], [t]);
  }

  /** The layout of a coin is the one derived for its fields, and likewise for the other parts. */
  lemma CoinRepr(c: Coin)
    ensures HasType(CoinValue(c), COIN) && Repr(CoinValue(c), COIN) == CoinBytes(c)
  {
    SixteenBytes();
    var vs, ts := [Raw(c.nonce), Raw(c.tokenType), Int(c.value)], [Array(32), Array(32), Integer(16, false)];
    assert vs[1..] == [Raw(c.tokenType), Int(c.value)] && ts[1..] == [Array(32), Integer(16, false)];
    ReprTwo(vs[1], vs[2], ts[1], ts[2]);
    assert ReprFields(vs, ts) == c.nonce + ReprFields(vs[1..], ts[1..]);
  }

  lemma PartyRepr(p: Party)
    ensures HasType(PartyValue(p), PARTY) && Repr(PartyValue(p), PARTY) == PartyBytes(p)
  {
    match p
    case User(key) => ReprTwo(Int(1), Raw(key), Bool, Array(32));
    case Contract(address) => ReprTwo(Int(0), Raw(address), Bool, Array(32));
  }

  method PublicKeyData(sk: Hash) returns (data: seq<Byte>)
    ensures data == Layout(PublicKey(sk))
  {
    data := Ascii("midnight:zswap-pk[v1]");
    data := Write(Raw(sk), Array(32), data);
  }

  method CommitmentData(c: Coin, recipient: Party) returns (data: seq<Byte>)
    ensures data == Layout(Commitment(c, recipient))
  {
    CoinRepr(c);
    PartyRepr(recipient);
    data := Ascii("midnight:zswap-cc[v1]");
    data := Write(CoinValue(c), COIN, data);
    data := Write(PartyValue(recipient), PARTY, data);
    Associate(Ascii("midnight:zswap-cc[v1]"), CoinBytes(c), PartyBytes(recipient));
  }

  method NullifierData(c: Coin, sender: Party) returns (data: seq<Byte>)
    ensures data == Layout(Nullifier(c, sender))
  {
    CoinRepr(c);
    PartyRepr(sender);
    data := Ascii("midnight:zswap-cn[v1]");
    data := Write(CoinValue(c), COIN, data);
    data := Write(PartyValue(sender), PARTY, data);
    Associate(Ascii("midnight:zswap-cn[v1]"), CoinBytes(c), PartyBytes(sender));
  }

  method EcdsaAddressData(point: Point) returns (data: seq<Byte>)
    ensures data == Layout(EcdsaAddress(point))
  {
    data := Ascii("midnight:ecdsa:");
    data := Write(Raw(point), Array(33), data);
  }

  /** A commitment hashes its opening first, then the value. */
  method CommitData(v: Value, t: Type, opening: Hash) returns (data: seq<Byte>)
    requires HasType(v, t)
    ensures data == opening + Repr(v, t)
  {
    data := Write(Raw(opening), Array(32), []);
    data := Write(v, t, data);
  }

  method TokenTypeData(domainSep: Hash, contract: Hash) returns (data: seq<Byte>)
    ensures data == Layout(TokenType(domainSep, contract))
  {
    ReprTwo(Raw(domainSep), Raw(contract), Array(32), Array(32));
    var opening := Ascii("midnight:derive_token") + Zeroes(11);
    assert |"midnight:derive_token"| == 21;
    data := CommitData(Record([Raw(domainSep), Raw(contract)]), HASH_PAIR, opening);
  }

  // ----- injectivity -----

  lemma ValueInjective(v: FixedPoint.U128, w: FixedPoint.U128)
    requires ToLe(v, 16) == ToLe(w, 16)
    ensures v == w
  {
    SixteenBytes();
    FromLeToLe(v, 16);
    FromLeToLe(w, 16);
  }

  lemma SixteenBytes()
    ensures Pow256(16) == 0x1_0000_0000_0000_0000_0000_0000_0000_0000
  {
    assert Pow256(4) == 0x1_0000_0000;
    assert Pow256(8) == 0x1_0000_0000 * Pow256(4);
    assert Pow256(12) == 0x1_0000_0000 * Pow256(8);
    assert Pow256(16) == 0x1_0000_0000 * Pow256(12);
  }

  lemma CoinInjective(c: Coin, d: Coin, x: seq<Byte>, y: seq<Byte>)
    requires CoinBytes(c) + x == CoinBytes(d) + y
    ensures c == d && x == y
  {
    SplitEqual(CoinBytes(c), CoinBytes(d), x, y);
    SplitEqual(c.nonce + c.tokenType, d.nonce + d.tokenType, ToLe(c.value, 16), ToLe(d.value, 16));
    SplitEqual(c.nonce, d.nonce, c.tokenType, d.tokenType);
    ValueInjective(c.value, d.value);
  }

  lemma TaggedCoin(tag: string, c: Coin, p: Party)
    requires |tag| == 21
    ensures var b := Ascii(tag) + (CoinBytes(c) + PartyBytes(p)); |b| == 134 && b[16] == tag[16] as int % 256
  {}

  /** Kinds are told apart by length, commitments from nullifiers by a letter of the tag. */
  lemma LayoutLength(o: Object)
    ensures |Layout(o)| == match o
              case PublicKey(_) => 53
              case Commitment(_, _) => 134
              case Nullifier(_, _) => 134
              case SchnorrAddress(_) => 32
              case EcdsaAddress(_) => 48
              case TokenType(_, _) => 96
    ensures o.Commitment? ==> Layout(o)[16] == 'c' as int
    ensures o.Nullifier? ==> Layout(o)[16] == 'n' as int
  {
    match o
    case PublicKey(_) => assert |"midnight:zswap-pk[v1]"| == 21;
    case Commitment(c, r) => TaggedCoin("midnight:zswap-cc[v1]", c, r);
    case Nullifier(c, s) => TaggedCoin("midnight:zswap-cn[v1]", c, s);
    case SchnorrAddress(_) =>
    case EcdsaAddress(_) => assert |"midnight:ecdsa:"| == 15;
    case TokenType(_, _) => assert |"midnight:derive_token"| == 21;
  }

  // ----- reading a preimage by offsets -----

  function ParseCoin(b: seq<Byte>): Coin
    requires |b| == 134
  {
    SixteenBytes();
    FromLeBound(b[85..101]);
    Coin(b[21..53], b[53..85], FromLe(b[85..101]))
  }

  function ParseParty(b: seq<Byte>): Option<Party>
    requires |b| == 134
  {
    if b[101] == 1 then Some(User(b[102..134]))
    else if b[101] == 0 then Some(Contract(b[102..134]))
    else None
  }

  /** The object a preimage was made of, if it is one. */
  function Parse(b: seq<Byte>): Option<Object> {
    if |b| == 32 then Some(SchnorrAddress(b))
    else if |b| == 48 && b[..15] == Ascii("midnight:ecdsa:") then Some(EcdsaAddress(b[15..48]))
    else if |b| == 53 && b[..21] == Ascii("midnight:zswap-pk[v1]") then Some(PublicKey(b[21..53]))
    else if |b| == 96 && b[..32] == Ascii("midnight:derive_token") + Zeroes(11) then
      Some(TokenType(b[32..64], b[64..96]))
    else if |b| == 134 && ParseParty(b).Some? && b[..21] == Ascii("midnight:zswap-cc[v1]") then
      Some(Commitment(ParseCoin(b), ParseParty(b).value))
    else if |b| == 134 && ParseParty(b).Some? && b[..21] == Ascii("midnight:zswap-cn[v1]") then
      Some(Nullifier(ParseCoin(b), ParseParty(b).value))
    else None
  }

  lemma CoinParts(c: Coin)
    ensures var b := CoinBytes(c);
            && |b| == 80 && b[..32] == c.nonce && b[32..64] == c.tokenType && b[64..80] == ToLe(c.value, 16)
  {}

  lemma PartyParts(p: Party)
    ensures var b := PartyBytes(p);
            && |b| == 33 && b[0] == (if p.User? then 1 else 0) && b[1..33] == (if p.User? then p.key else p.address)
  {}

  /** A slice of the middle of three parts. */
  lemma Middle(a: seq<Byte>, b: seq<Byte>, c: seq<Byte>, from: nat, to: nat)
    requires from <= to <= |b|
    ensures (a + (b + c))[|a| + from..|a| + to] == b[from..to]
  {
    Behind(a, b + c, from, to - from);
    assert (b + c)[from..to] == b[from..to];
  }

  /** Where the parts of a coin and a party lie behind a tag. */
  lemma CoinAt(tag: seq<Byte>, c: Coin, p: Party)
    requires |tag| == 21
    ensures var b := tag + (CoinBytes(c) + PartyBytes(p));
            && |b| == 134 && b[..21] == tag
            && b[21..53] == c.nonce && b[53..85] == c.tokenType && b[85..101] == ToLe(c.value, 16)
            && b[101] == (if p.User? then 1 else 0)
            && b[102..134] == (if p.User? then p.key else p.address)
  {
    var x, y := CoinBytes(c), PartyBytes(p);
    CoinParts(c);
    PartyParts(p);
    Middle(tag, x, y, 0, 32);
    Middle(tag, x, y, 32, 64);
    Middle(tag, x, y, 64, 80);
    PartyAt(tag, x, y);
  }

  lemma PartyAt(tag: seq<Byte>, x: seq<Byte>, y: seq<Byte>)
    requires |tag| == 21 && |x| == 80 && |y| == 33
    ensures var b := tag + (x + y); b[..21] == tag && b[101] == y[0] && b[102..134] == y[1..33]
  {
    Associate(tag, x, y);
    Behind(tag + x, y, 1, 32);
  }

  lemma ParseTagged(tag: seq<Byte>, c: Coin, p: Party)
    requires |tag| == 21
    ensures var b := tag + (CoinBytes(c) + PartyBytes(p));
            |b| == 134 && b[..21] == tag && ParseCoin(b) == c && ParseParty(b) == Some(p)
  {
    CoinAt(tag, c, p);
    SixteenBytes();
    FromLeToLe(c.value, 16);
  }

  lemma TagsDiffer()
    ensures Ascii("midnight:zswap-cc[v1]") != Ascii("midnight:zswap-cn[v1]")
  {
    assert Ascii("midnight:zswap-cc[v1]")[16] != Ascii("midnight:zswap-cn[v1]")[16];
  }

  lemma TwoParts(a: seq<Byte>, b: seq<Byte>)
    ensures (a + b)[..|a|] == a && (a + b)[|a|..|a| + |b|] == b
  {}

  lemma ParsePublicKey(sk: Hash)
    ensures Parse(Layout(PublicKey(sk))) == Some(PublicKey(sk))
  {
    assert |"midnight:zswap-pk[v1]"| == 21;
    TwoParts(Ascii("midnight:zswap-pk[v1]"), sk);
  }

  lemma ParseEcdsaAddress(p: Point)
    ensures Parse(Layout(EcdsaAddress(p))) == Some(EcdsaAddress(p))
  {
    assert |"midnight:ecdsa:"| == 15;
    TwoParts(Ascii("midnight:ecdsa:"), p);
  }

  lemma ThreeParts(a: seq<Byte>, b: seq<Byte>, c: seq<Byte>)
    ensures var s := a + (b + c);
            s[..|a|] == a && s[|a|..|a| + |b|] == b && s[|a| + |b|..|a| + |b| + |c|] == c
  {}

  lemma ParseTokenType(d: Hash, c: Hash)
    ensures Parse(Layout(TokenType(d, c))) == Some(TokenType(d, c))
  {
    var tag := Ascii("midnight:derive_token") + Zeroes(11);
    assert |tag| == 32 by { assert |"midnight:derive_token"| == 21; }
    ThreeParts(tag, d, c);
    var b := Layout(TokenType(d, c));
    assert |b| == 96 && b[..32] == tag && b[32..64] == d && b[64..96] == c;
  }

  lemma ParseCommitment(c: Coin, r: Party)
    ensures Parse(Layout(Commitment(c, r))) == Some(Commitment(c, r))
  {
    assert |"midnight:zswap-cc[v1]"| == 21;
    ParseTagged(Ascii("midnight:zswap-cc[v1]"), c, r);
  }

  lemma ParseNullifier(c: Coin, s: Party)
    ensures Parse(Layout(Nullifier(c, s))) == Some(Nullifier(c, s))
  {
    assert |"midnight:zswap-cn[v1]"| == 21;
    ParseTagged(Ascii("midnight:zswap-cn[v1]"), c, s);
    TagsDiffer();
  }

  /** Every object is read back from its preimage. */
  lemma ParseLayout(o: Object)
    ensures Parse(Layout(o)) == Some(o)
  {
    match o
    case PublicKey(sk) => ParsePublicKey(sk);
    case Commitment(c, r) => ParseCommitment(c, r);
    case Nullifier(c, s) => ParseNullifier(c, s);
    case SchnorrAddress(_) =>
    case EcdsaAddress(p) => ParseEcdsaAddress(p);
    case TokenType(d, c) => ParseTokenType(d, c);
  }

  lemma CoinFrom(tag: seq<Byte>, b: seq<Byte>)
    requires |tag| == 21 && |b| == 134 && b[..21] == tag && ParseParty(b).Some?
    ensures b == tag + (CoinBytes(ParseCoin(b)) + PartyBytes(ParseParty(b).value))
  {
    ToLeFromLe(b[85..101]);
    assert b[101..134] == [b[101]] + b[102..134];
    assert b[21..101] == b[21..53] + b[53..85] + b[85..101];
    assert b[21..134] == b[21..101] + b[101..134];
    assert b == b[..21] + b[21..134];
  }

  /** And nothing else is: only preimages can be read. */
  lemma LayoutParse(b: seq<Byte>)
    requires Parse(b).Some?
    ensures Layout(Parse(b).value) == b
  {
    match Parse(b).value
    case PublicKey(_) => assert b == b[..21] + b[21..53];
    case Commitment(_, _) => CoinFrom(Ascii("midnight:zswap-cc[v1]"), b);
    case Nullifier(_, _) => CoinFrom(Ascii("midnight:zswap-cn[v1]"), b);
    case SchnorrAddress(_) =>
    case EcdsaAddress(_) => assert b == b[..15] + b[15..48];
    case TokenType(_, _) => assert b == b[..32] + (b[32..64] + b[64..96]);
  }

  /** Equal preimages come from the same object, of the same kind. */
  lemma LayoutInjective(o: Object, o': Object)
    requires Layout(o) == Layout(o')
    ensures o == o'
  {
    ParseLayout(o);
    ParseLayout(o');
  }

  /** The commitment to a coin and its nullifier for the same party differ in one letter of the tag. */
  lemma OneLetterApart(c: Coin, p: Party, i: nat)
    requires i < 134
    ensures var x, y := Layout(Commitment(c, p)), Layout(Nullifier(c, p));
            |x| == |y| == 134 && (x[i] != y[i] <==> i == 16)
  {
    LayoutLength(Commitment(c, p));
    LayoutLength(Nullifier(c, p));
    var s, t := "midnight:zswap-cc[v1]", "midnight:zswap-cn[v1]";
    assert |s| == |t| == 21 && s[..16] == t[..16] && s[17..] == t[17..];
    if i < 16 { assert s[i] == s[..16][i] == t[..16][i]; }
    if 16 < i < 21 { assert s[i] == s[17..][i - 17] == t[17..][i - 17]; }
  }
}
