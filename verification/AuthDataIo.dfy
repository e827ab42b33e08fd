/** The loops and builders of src/ctap/auth_data.cpp over the Reader and Writer objects. */
module AuthDataIo {
  import opened Bytes
  import opened Statuses
  import opened Cbor
  import opened CborIo
  import opened AuthData

  method ReadKey(r: Reader) returns (k: Result<int>)
    requires r.Valid()
    modifies r
    ensures r.Valid() && Agrees(k, r.Rest(), ReadIntKey(old(r.Rest())))
  {
    if r.off >= |r.input| {
      return Failure(InvalidCbor);
    }
    var m := r.input[r.off] / 32;
    if m != 0 && m != 1 {
      return Failure(CborUnexpectedType);
    }
    k := r.Integer();
  }

  method ParseCoseP256(r: Reader) returns (key: Result<PublicKey>)
    requires r.Valid()
    modifies r
    ensures r.Valid() && Agrees(key, r.Rest(), ParseCose(old(r.Rest())))
  {
    hide ReadMap, ReadIntKey, ReadBstr, ReadInteger, Skip;
    var n :- r.MapHeader();
    var x: Option<Bytes32>, y: Option<Bytes32> := None, None;
    ghost var entries := r.Rest();
    var i := 0;
    while i < n
      invariant r.Valid() && i <= n
      invariant MapLoop(CoseStep, CoseRead(x, y), n - i, r.Rest())
                == MapLoop(CoseStep, CoseRead(None, None), n, entries)
    {
      var k :- ReadKey(r);
      if k == -2 || k == -3 {
        var v :- r.Bstr();
        if |v| != 32 {
          return Failure(InvalidParameter);
        }
        if k == -2 {
          x := Some(v);
        } else {
          y := Some(v);
        }
      } else if k == 1 {
        var v :- r.Integer();
        if v != 2 {
          return Failure(InvalidParameter);
        }
      } else if k == -1 {
        var v :- r.Integer();
        if v != 1 {
          return Failure(InvalidParameter);
        }
      } else {
        var skipped :- r.SkipDepth(0);
      }
      i := i + 1;
    }
    if x.None? || y.None? {
      return Failure(MissingParameter);
    }
    return Success(PublicKey(x.value, y.value));
  }

  method EncodeCoseP256(pub: PublicKey) returns (bytes: seq<Byte>)
    ensures bytes == EncodeCose(pub)
  {
    hide EncInt, EncBstr, EncodeMap;
    var m: seq<Entry> := [];
    m := m + [Entry(EncInt(1), EncInt(2))];
    m := m + [Entry(EncInt(3), EncInt(-7))];
    m := m + [Entry(EncInt(-1), EncInt(1))];
    m := m + [Entry(EncInt(-2), EncBstr(pub.x))];
    m := m + [Entry(EncInt(-3), EncBstr(pub.y))];
    assert m == CoseEntries(pub);
    var w := new Writer();
    w.WriteMap(m);
    assert [] + EncodeMap(m) == EncodeMap(m);
    return w.buf;
  }

  method AttestedCredentialData(aaguid: Bytes16, credId: seq<Byte>, pub: PublicKey) returns (out: seq<Byte>)
    ensures out == BuildAttested(aaguid, credId, pub)
  {
    hide EncodeCose;
    out := aaguid;
    out := out + [|credId| / 256 % 256];
    out := out + [|credId| % 256];
    out := out + credId;
    var cose := EncodeCoseP256(pub);
    out := out + cose;
    assert out == aaguid + TwoByteLength(|credId|) + credId + cose;
  }

  method AuthenticatorData(rpIdHash: Bytes32, flags: Byte, count: U32, attested: seq<Byte>, extensions: seq<Byte>)
    returns (out: seq<Byte>)
    ensures out == BuildAuthData(rpIdHash, flags, count, attested, extensions)
  {
    out := rpIdHash;
    out := out + [flags];
    out := out + [count / 256 / 256 / 256 % 256];
    out := out + [count / 256 / 256 % 256];
    out := out + [count / 256 % 256];
    out := out + [count % 256];
    assert out == rpIdHash + [flags] + BigEndian(count, 4) by { FourBytes(count); }
    out := out + attested;
    out := out + extensions;
  }

  lemma FourBytes(n: U32)
    ensures BigEndian(n, 4) == [n / 256 / 256 / 256 % 256, n / 256 / 256 % 256, n / 256 % 256, n % 256]
  {
    assert BigEndian(n, 4) == BigEndian(n / 256 / 256, 2) + [n / 256 % 256, n % 256];
  }
}
