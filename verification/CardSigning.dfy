/** Key pairs and detached signatures of card_signing.h. */
module CardSigning {
  import opened MachineInts
  import opened Base64
  import opened EdwardsLaw
  import opened Wrappers
  import Edwards
  import Sign
  import Acceptance

  /** generate: the public and the secret key in hexadecimal. */
  method Generate(ghost sch: Sign.Scheme, seed: seq<byte>) returns (pkHex: string, skHex: string)
    requires |seed| == 32 && Sign.IsEd25519(sch)
    ensures pkHex == HexOf(Sign.PublicKey(sch, seed)) && skHex == HexOf(seed + Sign.PublicKey(sch, seed))
  {
    var pk, sk := new byte[32], new byte[64];
    Sign.CryptoSignKeypair(sch, pk, sk, seed);
    pkHex := Hex(pk[..]);
    skHex := Hex(sk[..]);
  }

  /** The text of the first 64 bytes of a signed message. */
  function Detached(sch: Sign.Scheme, msg: seq<byte>, sk: seq<byte>): string
    requires |sk| == 64
  {
    Encode(Sign.Signed(sch, sk, msg)[..64], '-', '_')
  }

  /** sign_detached_b64url; None stands for the exception about a bad secret key. */
  method SignDetached(ghost sch: Sign.Scheme, msg: seq<byte>, skHex: string) returns (r: Option<string>)
    requires |msg| + 64 < 0x1_0000_0000_0000_0000 && Sign.IsEd25519(sch)
    ensures |UnhexOf(skHex)| != 64 ==> r == None
    ensures |UnhexOf(skHex)| == 64 ==> r == Some(Detached(sch, msg, UnhexOf(skHex)))
  {
    var sk := Unhex(skHex);
    if |sk| != 64 {
      return None;
    }
    var sm := new byte[|msg| + 64](_ => 0);
    var m := new byte[|msg|](i requires 0 <= i < |msg| => msg[i]);
    assert m[0..0 + |msg|] == msg;
    var smlen := Sign.CryptoSign(sch, sm, m, 0, |msg|, sk);
    assert sm[..64] == sm[..smlen][..64];
    var text := B64Url(sm[..64]);
    r := Some(text);
  }

  /** The text is in the alphabet and decodes to 64 bytes that sign the message under the key. */
  ghost predicate Verifies(sch: Sign.Scheme, msg: seq<byte>, text: string, pkHex: string) {
    && |UnhexOf(pkHex)| == 32
    && (forall i :: 0 <= i < |text| ==> Place(text[i], '-', '_') >= 0)
    && exists sig :: |sig| == 64 && Decodes(Places(text, '-', '_'), sig) && Sign.Opened(sch, UnhexOf(pkHex), sig + msg).Some?
  }

  /** verify_detached */
  method VerifyDetached(ghost sch: Sign.Scheme, msg: seq<byte>, text: string, pkHex: string) returns (ok: bool)
    requires |msg| + 64 < 0x1_0000_0000_0000_0000 && Sign.IsEd25519(sch)
    ensures ok == Verifies(sch, msg, text, pkHex)
  {
    var pk := Unhex(pkHex);
    if |pk| != 32 {
      return false;
    }
    var good, sig := DecodeUrl(text);
    if !good {
      return false;
    }
    if |sig| != 64 {
      OtherDecoding(text, sig);
      return false;
    }
    ok := OpensDetached(sch, msg, sig, pk);
    OnlyDecoding(text, sig);
  }

  /** The signature in front of the message is opened. */
  method OpensDetached(ghost sch: Sign.Scheme, msg: seq<byte>, sig: seq<byte>, pk: seq<byte>) returns (ok: bool)
    requires |pk| == 32 && |sig| == 64 && |msg| + 64 < 0x1_0000_0000_0000_0000 && Sign.IsEd25519(sch)
    ensures ok == Sign.Opened(sch, pk, sig + msg).Some?
  {
    var both := sig + msg;
    var sm := new byte[|both|](i requires 0 <= i < |both| => both[i]);
    assert sm[..|both|] == both;
    var m := new byte[|both|](_ => 0);
    var r, mlen := Sign.CryptoSignOpen(sch, m, sm, |both|, pk);
    ok := r == 0;
  }

  lemma OnlyDecoding(text: string, sig: seq<byte>)
    requires forall i :: 0 <= i < |text| ==> Place(text[i], '-', '_') >= 0
    requires Decodes(Places(text, '-', '_'), sig)
    ensures forall other :: Decodes(Places(text, '-', '_'), other) ==> other == sig
  {
    forall other | Decodes(Places(text, '-', '_'), other)
      ensures other == sig
    {
      DecodesOnce(Places(text, '-', '_'), sig, other);
    }
  }

  lemma OtherDecoding(text: string, sig: seq<byte>)
    requires forall i :: 0 <= i < |text| ==> Place(text[i], '-', '_') >= 0
    requires Decodes(Places(text, '-', '_'), sig) && |sig| != 64
    ensures forall other :: Decodes(Places(text, '-', '_'), other) ==> |other| != 64
  {
    OnlyDecoding(text, sig);
  }

  /** verify_detached accepts what sign_detached_b64url makes with a generated key, for every message. */
  lemma DetachedVerifies(sch: Sign.Scheme, seed: seq<byte>, msg: seq<byte>)
    requires Sign.IsEd25519(sch) && Curve() && Sign.BaseOrder() && |seed| == 32
    ensures var pk := Sign.PublicKey(sch, seed);
      |UnhexOf(HexOf(seed + pk))| == 64
      && Verifies(sch, msg, Detached(sch, msg, UnhexOf(HexOf(seed + pk))), HexOf(pk))
  {
    var pk := Sign.PublicKey(sch, seed);
    HexRoundTrip(seed + pk);
    HexRoundTrip(pk);
    var sm := Sign.Signed(sch, seed + pk, msg);
    var sig := sm[..64];
    Sign.SignThenOpen(sch, seed, msg);
    SignatureInFront(sch, seed + pk, msg);
    UrlDecodes(sig, sig);
    assert Decodes(Places(Encode(sig, '-', '_'), '-', '_'), sig);
    assert Sign.Opened(sch, pk, sig + msg).Some?;
  }

  lemma SignatureInFront(sch: Sign.Scheme, sk: seq<byte>, msg: seq<byte>)
    requires |sk| == 64
    ensures Sign.Signed(sch, sk, msg) == Sign.Signed(sch, sk, msg)[..64] + msg
  {
  }

  /** What acceptance means: the key unpacks to a point -A, and R is the encoding of [k mod L](-A) + [S]B. */
  lemma VerifiesMeans(sch: Sign.Scheme, msg: seq<byte>, text: string, pkHex: string, sig: seq<byte>)
    requires Sign.IsEd25519(sch) && Curve() && |sig| == 64
    requires forall i :: 0 <= i < |text| ==> Place(text[i], '-', '_') >= 0
    requires Decodes(Places(text, '-', '_'), sig)
    ensures var pk := UnhexOf(pkHex);
      Verifies(sch, msg, text, pkHex)
      <==> |pk| == 32 && Edwards.Unpacked(pk).Some? && Acceptance.EncodesSum(sch, pk, sig + msg, Edwards.Unpacked(pk).value)
  {
    OnlyDecoding(text, sig);
    if |UnhexOf(pkHex)| == 32 {
      Acceptance.AcceptanceMeans(sch, UnhexOf(pkHex), sig + msg);
    }
  }
}
