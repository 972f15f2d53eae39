/** The signed double-submit token. The MAC is a parameter. */
module Csrf {
  import opened Common
  import opened Text
  import Base64

  const CSRF_RANDOM_LENGTH := 32

  /** HMAC-SHA-256 of a text under a secret. */
  type Mac = (Bytes, string) -> Bytes

  function Sign(mac: Mac, secret: Bytes, value: string): string {
    Base64.Encode(Base64.URL, mac(secret, value))
  }

  /** The random bytes are the input. */
  function NewToken(mac: Mac, secret: Bytes, random: Bytes): Result<string> {
    if |secret| < 32 then Failure(Unavailable) else
      var value := Base64.Encode(Base64.URL, random);
      Success(value + "." + Sign(mac, secret, value))
  }

  function Validate(mac: Mac, secret: Bytes, token: string): bool {
    |secret| >= 32 &&
    var parts := Split(token, '.');
    |parts| == 2 && parts[0] != "" && parts[1] != "" &&
    match Base64.Decode(Base64.URL, parts[0])
    case None => false
    case Some(random) => |random| == CSRF_RANDOM_LENGTH && Sign(mac, secret, parts[0]) == parts[1]
  }

  /** The value of an accepted token: dot-free, and a reading of 32 bytes. */
  ghost predicate IsValue(value: string) {
    '.' !in value && Base64.Decode(Base64.URL, value).Some? &&
      |Base64.Decode(Base64.URL, value).value| == 32
  }

  lemma {:induction false} SignatureText(mac: Mac, secret: Bytes, value: string)
    requires forall s, v :: |mac(s, v)| == 32
    ensures '.' !in Sign(mac, secret, value) && Sign(mac, secret, value) != ""
  {
    Base64.EncodedText(Base64.URL, mac(secret, value));
  }

  lemma {:induction false} SplitPair(value: string, signature: string)
    requires '.' !in value && '.' !in signature
    ensures Split(value + "." + signature, '.') == [value, signature]
  {
    SplitFirst(value, '.', signature);
    SplitFirst(signature, '.', "");
  }

  /** The accepted strings are exactly value + "." + signature, where the value reads as 32 bytes and the signature is
      the printed form of the MAC of that value under the secret. */
  lemma {:induction false} AcceptedExactly(mac: Mac, secret: Bytes, token: string)
    requires forall s, v :: |mac(s, v)| == 32
    ensures Validate(mac, secret, token) <==>
            && |secret| >= 32
            && exists value, signature :: IsValue(value) && token == value + "." + signature &&
                                          signature == Base64.Encode(Base64.URL, mac(secret, value))
  {
    if Validate(mac, secret, token) {
      JoinSplit(token, '.');
      var parts := Split(token, '.');
      assert parts[1..] == [parts[1]];
      assert IsValue(parts[0]) && token == parts[0] + "." + parts[1];
    }
    if |secret| >= 32 {
      forall value, signature | IsValue(value) && token == value + "." + signature &&
                                signature == Base64.Encode(Base64.URL, mac(secret, value))
        ensures Validate(mac, secret, token)
      {
        SignatureText(mac, secret, value);
        SplitPair(value, signature);
        assert value != "";
      }
    }
  }

  /** One way to write a token: the value is what stands before its one dot. */
  lemma {:induction false} AcceptedValue(mac: Mac, secret: Bytes, value: string, key: Bytes)
    requires (forall s, v :: |mac(s, v)| == 32) && IsValue(value)
    ensures Validate(mac, secret, value + "." + Base64.Encode(Base64.URL, key)) <==>
            |secret| >= 32 && mac(secret, value) == key
  {
    var token := value + "." + Base64.Encode(Base64.URL, key);
    Base64.EncodedText(Base64.URL, key);
    SplitPair(value, Base64.Encode(Base64.URL, key));
    Base64.RoundTrip(Base64.URL, key);
    Base64.RoundTrip(Base64.URL, mac(secret, value));
    SignatureText(mac, secret, value);
    assert value != "";
    assert Split(token, '.') == [value, Base64.Encode(Base64.URL, key)];
  }

  /** Every generated token validates; without a secret of 32 bytes none is generated. Under another secret of 32 bytes
      it validates exactly when the MACs of its value agree. */
  lemma {:induction false} GeneratedValidates(mac: Mac, secret: Bytes, random: Bytes, other: Bytes)
    requires |random| == 32 && |other| >= 32 && forall s, v :: |mac(s, v)| == 32
    ensures NewToken(mac, secret, random) == Failure(Unavailable) <==> |secret| < 32
    ensures NewToken(mac, secret, random).Success? ==>
              && Validate(mac, secret, NewToken(mac, secret, random).value)
              && var value := Base64.Encode(Base64.URL, random);
                 Validate(mac, other, NewToken(mac, secret, random).value) <==> mac(other, value) == mac(secret, value)
  {
    var value := Base64.Encode(Base64.URL, random);
    GeneratedIsValue(random);
    AcceptedValue(mac, secret, value, mac(secret, value));
    AcceptedValue(mac, other, value, mac(secret, value));
  }

  lemma {:induction false} GeneratedIsValue(random: Bytes)
    requires |random| == 32
    ensures IsValue(Base64.Encode(Base64.URL, random))
  {
    Base64.EncodedText(Base64.URL, random);
    Base64.RoundTrip(Base64.URL, random);
  }

  /** A signature is good for its own value only: with another value in front, it validates exactly when the secret
      gives both the same MAC; with another signature behind, never. */
  lemma {:induction false} ExchangedPart(mac: Mac, secret: Bytes, value: string, signature: string, value': string,
                                         signature': string)
    requires (forall s, v :: |mac(s, v)| == 32) && IsValue(value) && IsValue(value')
    requires Validate(mac, secret, value + "." + signature)
    ensures Validate(mac, secret, value' + "." + signature) <==> mac(secret, value') == mac(secret, value)
    ensures Validate(mac, secret, value + "." + signature') <==> signature' == signature
  {
    SplitSecond(value, signature);
    SplitSecond(value, signature');
    assert signature == Base64.Encode(Base64.URL, mac(secret, value));
    AcceptedValue(mac, secret, value', mac(secret, value));
  }

  /** Behind a dot-free value, two parts mean that the second is the rest. */
  lemma {:induction false} SplitSecond(value: string, rest: string)
    requires '.' !in value
    ensures |Split(value + "." + rest, '.')| == 2 ==> Split(value + "." + rest, '.') == [value, rest]
  {
    SplitFirst(value, '.', rest);
    JoinSplit(rest, '.');
  }
}
