/** ECDSA P-256 signatures in DER with the smaller of the two equivalent s values
    (src/crypto/openssl_provider.cpp:333-385). Big numbers are natural numbers. */
module LowSDer {
  import opened Bytes
  import opened Statuses

  /** The order of P-256. */
  const N: nat := 0xFFFFFFFF_00000000_FFFFFFFF_FFFFFFFF_BCE6FAAD_A7179E84_F3B9CAC2_FC632551
  const HALF := N / 2

  // ---------------------------------------------------------------- encoding

  /** BN_bn2bin: the magnitude without leading zeros. */
  function Magnitude(v: nat): seq<Byte> {
    if v == 0 then [] else Magnitude(v / 256) + [v % 256]
  }

  /** The content of a nonnegative INTEGER: a zero byte goes before a magnitude that is empty or would read as
      negative. */
  function Content(v: nat): seq<Byte> {
    var b := Magnitude(v);
    if b == [] || b[0] >= 0x80 then [0] + b else b
  }

  function Element(tag: Byte, content: seq<Byte>): seq<Byte> { [tag, |content| % 256] + content }

  function EncodeSig(r: nat, s: nat): seq<Byte> {
    Element(0x30, Element(0x02, Content(r)) + Element(0x02, Content(s)))
  }

  /** The equivalent s that is at most half the order (for a larger 32-byte number, the magnitude of the
      negative difference). */
  function LowS(s: nat): nat {
    if s <= HALF then s else if s <= N then N - s else s - N
  }

  function RsToDer(r: Bytes32, s: Bytes32): seq<Byte> { EncodeSig(FromBigEndian(r), LowS(FromBigEndian(s))) }

  // ---------------------------------------------------------------- a strict decoder

  /** A two's-complement number in the fewest bytes (section 8.3 of X.690). */
  predicate MinimalContent(c: seq<Byte>) {
    && |c| >= 1
    && (|c| >= 2 ==> !(c[0] == 0 && c[1] < 0x80) && !(c[0] == 0xFF && c[1] >= 0x80))
  }

  function Signed(c: seq<Byte>): int
    requires c != []
  {
    if c[0] >= 0x80 then FromBigEndian(c) - Pow256(|c|) else FromBigEndian(c)
  }

  /** A tag, a one-byte length and that much content. */
  function TakeElement(tag: Byte, s: seq<Byte>): Option<(seq<Byte>, seq<Byte>)> {
    if |s| < 2 || s[0] != tag || s[1] >= 0x80 || 2 + s[1] > |s| then None
    else Some((s[2..2 + s[1]], s[2 + s[1]..]))
  }

  function TakeInteger(s: seq<Byte>): Option<(int, seq<Byte>)> {
    match TakeElement(0x02, s)
    case None => None
    case Some((c, rest)) => if MinimalContent(c) then Some((Signed(c), rest)) else None
  }

  /** A SEQUENCE of two INTEGERs and nothing after it. */
  function DecodeSig(der: seq<Byte>): Option<(int, int)> {
    match TakeElement(0x30, der)
    case None => None
    case Some((body, after)) =>
      if after != [] then None
      else match TakeInteger(body)
        case None => None
        case Some((r, rest)) =>
          match TakeInteger(rest)
          case None => None
          case Some((s, end)) => if end == [] then Some((r, s)) else None
  }

  // ---------------------------------------------------------------- numbers and their bytes

  lemma {:induction false} MagnitudeRoundTrip(v: nat)
    ensures FromBigEndian(Magnitude(v)) == v
    ensures v > 0 ==> Magnitude(v) != [] && Magnitude(v)[0] != 0
  {
    if v > 0 {
      MagnitudeRoundTrip(v / 256);
      assert Magnitude(v)[..|Magnitude(v)| - 1] == Magnitude(v / 256);
    }
  }

  lemma {:induction false} MagnitudeBack(b: seq<Byte>)
    requires b == [] || b[0] != 0
    ensures Magnitude(FromBigEndian(b)) == b
    ensures b != [] ==> FromBigEndian(b) > 0
  {
    if b != [] {
      var front := b[..|b| - 1];
      MagnitudeBack(front);
      assert b == front + [b[|b| - 1]];
      assert FromBigEndian(b) / 256 == FromBigEndian(front);
    }
  }

  lemma {:induction false} LeadingZero(b: seq<Byte>)
    ensures FromBigEndian([0] + b) == FromBigEndian(b)
  {
    var s := [0] + b;
    if b == [] {
      assert s[..0] == [];
    } else {
      LeadingZero(b[..|b| - 1]);
      assert s[..|s| - 1] == [0] + b[..|b| - 1];
    }
  }

  lemma {:induction false} MagnitudeLength(v: nat, w: nat)
    requires v < Pow256(w)
    ensures |Magnitude(v)| <= w
  {
    if v > 0 {
      MagnitudeLength(v / 256, w - 1);
    }
  }

  /** A number below half of 256^w needs no zero byte in front of w bytes. */
  lemma {:induction false} TopBit(v: nat, w: nat)
    requires w >= 1 && v < 128 * Pow256(w - 1) && |Magnitude(v)| == w
    ensures Magnitude(v)[0] < 0x80
  {
    if w == 1 {
      assert Magnitude(v / 256) == [];
    } else {
      TopBit(v / 256, w - 1);
    }
  }

  lemma PowersUpTo32()
    ensures Pow256(31) == 0x100_000000000000_0000000000000000_0000000000000000_0000000000000000
    ensures Pow256(32) == 256 * Pow256(31)
  {
    assert Pow256(3) == 0x100_0000;
    assert Pow256(6) == 0x1_0000_0000_0000;
    assert Pow256(9) == 0x100_0000000000000000;
    assert Pow256(12) == 0x1_00000000_0000000000000000;
    assert Pow256(15) == 0x1_00000000000000_0000000000000000;
    assert Pow256(18) == 0x1_0000_0000000000000000_0000000000000000;
    assert Pow256(21) == 0x1_0000000000_0000000000000000_0000000000000000;
    assert Pow256(24) == 0x1_0000000000000000_0000000000000000_0000000000000000;
    assert Pow256(27) == 0x1_000000_0000000000000000_0000000000000000_0000000000000000;
    assert Pow256(30) == 0x1_000000000000_0000000000000000_0000000000000000_0000000000000000;
  }

  lemma ContentIsMinimal(v: nat)
    ensures MinimalContent(Content(v)) && Signed(Content(v)) == v && Content(v)[0] < 0x80
  {
    MagnitudeRoundTrip(v);
    LeadingZero(Magnitude(v));
  }

  /** There is only one minimal content for a nonnegative number. */
  lemma ContentUnique(c: seq<Byte>)
    requires MinimalContent(c) && Signed(c) >= 0
    ensures Content(Signed(c)) == c
  {
    hide FromBigEndian, Pow256, Magnitude;
    FromBigEndianRoundTrip(c);
    if c[0] == 0 {
      assert c == [0] + c[1..];
      LeadingZero(c[1..]);
      MagnitudeBack(c[1..]);
    } else {
      MagnitudeBack(c);
    }
  }

  lemma ContentLength(v: nat)
    requires v < Pow256(32)
    ensures 1 <= |Content(v)| <= 33
    ensures v <= HALF ==> |Content(v)| <= 32
  {
    MagnitudeLength(v, 32);
    PowersUpTo32();
    if v <= HALF && |Magnitude(v)| == 32 {
      TopBit(v, 32);
    }
  }

  // ---------------------------------------------------------------- signatures

  lemma TakeElementOf(tag: Byte, content: seq<Byte>, rest: seq<Byte>)
    requires |content| < 128
    ensures TakeElement(tag, Element(tag, content) + rest) == Some((content, rest))
  {
  }

  lemma TakeElementSound(tag: Byte, s: seq<Byte>)
    requires TakeElement(tag, s).Some?
    ensures s == Element(tag, TakeElement(tag, s).value.0) + TakeElement(tag, s).value.1
    ensures |TakeElement(tag, s).value.0| < 128
  {
  }

  lemma TakeIntegerOf(v: nat, rest: seq<Byte>)
    requires |Content(v)| < 128
    ensures TakeInteger(Element(0x02, Content(v)) + rest) == Some((v as int, rest))
  {
    hide TakeElement, Element, Content, Signed, MinimalContent;
    TakeElementOf(0x02, Content(v), rest);
    ContentIsMinimal(v);
  }

  lemma TakeIntegerSound(s: seq<Byte>)
    requires TakeInteger(s).Some? && TakeInteger(s).value.0 >= 0
    ensures s == Element(0x02, Content(TakeInteger(s).value.0)) + TakeInteger(s).value.1
  {
    hide TakeElement, Element, Content, Signed;
    TakeElementSound(0x02, s);
    ContentUnique(TakeElement(0x02, s).value.0);
  }

  lemma BodyDecodes(r: nat, s: nat)
    requires |Content(r)| + |Content(s)| < 124
    ensures DecodeSig(EncodeSig(r, s)) == Some((r as int, s as int))
  {
    hide TakeElement, TakeInteger, Content;
    var first, second := Element(0x02, Content(r)), Element(0x02, Content(s));
    TakeElementOf(0x30, first + second, []);
    assert EncodeSig(r, s) == Element(0x30, first + second) + [];
    TakeIntegerOf(r, second);
    TakeIntegerOf(s, []);
    assert second == second + [];
  }

  /** On nonnegative numbers the strict decoder accepts exactly the encoder's output. */
  lemma DecodeExact(der: seq<Byte>, r: nat, s: nat)
    requires |Content(r)| + |Content(s)| < 124
    ensures DecodeSig(der) == Some((r as int, s as int)) <==> der == EncodeSig(r, s)
  {
    BodyDecodes(r, s);
    if DecodeSig(der) == Some((r as int, s as int)) {
      hide TakeElement, TakeInteger, Content, Element;
      TakeElementSound(0x30, der);
      var body := TakeElement(0x30, der).value.0;
      TakeIntegerSound(body);
      TakeIntegerSound(TakeInteger(body).value.1);
      var first, second := Element(0x02, Content(r)), Element(0x02, Content(s));
      assert second + [] == second;
      assert Element(0x30, first + second) + [] == Element(0x30, first + second);
    }
  }

  /** For every 32-byte r and s the output is the one strict DER encoding of r and of an s' of at most half the
      order; s' is the smaller of s and n - s whenever s is at most n. It is at most 71 bytes long, so one-byte
      lengths are right. */
  lemma LowSOutput(r: Bytes32, s: Bytes32)
    ensures var (m, k) := (FromBigEndian(r), FromBigEndian(s));
            var der := RsToDer(r, s);
            && DecodeSig(der) == Some((m as int, LowS(k) as int))
            && LowS(k) <= HALF
            && (k <= N ==> LowS(k) == if k <= N - k then k else N - k)
            && 8 <= |der| <= 71
  {
    hide DecodeSig, Content;
    var m, k := FromBigEndian(r), FromBigEndian(s);
    FromBigEndianRoundTrip(r);
    FromBigEndianRoundTrip(s);
    PowersUpTo32();
    ContentLength(m);
    ContentLength(LowS(k));
    DecodeExact(RsToDer(r, s), m, LowS(k));
  }

  // ---------------------------------------------------------------- normalising

  /** BN_bn2binpad into a zeroed buffer; its failure on a longer number is not looked at. */
  function Padded(v: nat): Bytes32 { if v < Pow256(32) then BigEndian(v, 32) else Zeros(32) }

  /** decode stands for OpenSSL's reader of signatures. */
  function Normalize(decode: seq<Byte> -> Option<(nat, nat)>, der: seq<Byte>): Result<seq<Byte>> {
    match decode(der)
    case None => Failure(Other)
    case Some((r, s)) => Success(RsToDer(Padded(r), Padded(s)))
  }

  /** It reads strict DER as what it encodes; what else it reads is open. */
  ghost predicate ReadsDer(decode: seq<Byte> -> Option<(nat, nat)>) {
    forall der :: DecodeSig(der).Some? && DecodeSig(der).value.0 >= 0 && DecodeSig(der).value.1 >= 0
        ==> decode(der) == DecodeSig(der)
  }

  lemma NormalizeDer(decode: seq<Byte> -> Option<(nat, nat)>, r: Bytes32, s: Bytes32)
    requires ReadsDer(decode)
    ensures Normalize(decode, RsToDer(r, s)) == Success(EncodeSig(FromBigEndian(r), LowS(LowS(FromBigEndian(s)))))
  {
    hide DecodeSig, EncodeSig, LowS;
    var m, k := FromBigEndian(r), LowS(FromBigEndian(s));
    LowSOutput(r, s);
    assert decode(RsToDer(r, s)) == Some((m, k));
    FromBigEndianRoundTrip(r);
    PowersUpTo32();
    BigEndianRoundTrip(m, 32);
    BigEndianRoundTrip(k, 32);
    assert FromBigEndian(Padded(m)) == m && FromBigEndian(Padded(k)) == k;
  }

  /** Normalising what was emitted, by either function, changes nothing. */
  lemma NormalizeIdempotent(decode: seq<Byte> -> Option<(nat, nat)>, der: seq<Byte>, r: Bytes32, s: Bytes32)
    requires ReadsDer(decode)
    ensures Normalize(decode, RsToDer(r, s)) == Success(RsToDer(r, s))
    ensures Normalize(decode, der).Success? ==>
              Normalize(decode, Normalize(decode, der).value) == Normalize(decode, der)
  {
    hide EncodeSig, DecodeSig;
    NormalizeDer(decode, r, s);
    LowSOutput(r, s);
    if decode(der).Some? {
      var (m, k) := decode(der).value;
      NormalizeDer(decode, Padded(m), Padded(k));
      LowSOutput(Padded(m), Padded(k));
    }
  }

  // ---------------------------------------------------------------- the code

  method EncodeInt(v: nat) returns (out: seq<Byte>)
    ensures out == Element(0x02, Content(v))
  {
    var b := Magnitude(v);
    if |b| == 0 || b[0] >= 0x80 {
      b := [0] + b;
    }
    out := [];
    out := out + [0x02];
    out := out + [|b| % 256];
    out := out + b;
  }

  /** ecdsa_p256_rs_to_der_low_s. */
  method RsToDerLowS(r: Bytes32, s: Bytes32) returns (der: seq<Byte>)
    ensures der == RsToDer(r, s)
  {
    hide Content, FromBigEndian;
    var rb, sb := FromBigEndian(r), FromBigEndian(s);
    var half := N / 2;
    if sb > half {
      var s2 := if N >= sb then N - sb else sb - N;
      sb := s2;
    }
    var ri := EncodeInt(rb);
    var si := EncodeInt(sb);
    der := [];
    der := der + [0x30];
    der := der + [(|ri| + |si|) % 256];
    der := der + ri;
    der := der + si;
  }
}
