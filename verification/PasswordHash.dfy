/** The printed form of an Argon2id hash, its parser, and password verification. A password is a sequence of code
    points; the key derivation itself is a parameter. */
module PasswordHash {
  import opened Common
  import opened Text
  import Base64

  const ARGON_MEMORY := 64 * 1024
  const ARGON_ITERATIONS := 3
  const ARGON_PARALLELISM := 1
  const ARGON_KEY_LENGTH := 32
  const ARGON_SALT_LENGTH := 16

  /** argon2.IDKey(password, salt, iterations, memory, threads, keyLength) */
  type KeyDerivation = (string, Bytes, nat, nat, nat, nat) -> Bytes

  /** What a printed hash holds. */
  datatype Encoded = Encoded(memory: nat, iterations: nat, parallelism: nat, salt: Bytes, expected: Bytes)

  predicate ValidPassword(password: string) { 15 <= |password| <= 128 }

  // ---------------------------------------------------------------- printing

  function PrintParameter(key: char, n: nat): string { [key, '='] + FormatInt(n) }

  function PrintParameters(e: Encoded): seq<string> {
    [PrintParameter('m', e.memory), PrintParameter('t', e.iterations), PrintParameter('p', e.parallelism)]
  }

  function PrintParts(e: Encoded): seq<string> {
    ["", "argon2id", "v=19", Join(PrintParameters(e), ','),
     Base64.Encode(Base64.Std, e.salt), Base64.Encode(Base64.Std, e.expected)]
  }

  function Print(e: Encoded): string {
    Join(PrintParts(e), '$')
  }

  function Derived(kdf: KeyDerivation, password: string, salt: Bytes): Bytes {
    kdf(password, salt, ARGON_ITERATIONS, ARGON_MEMORY, ARGON_PARALLELISM, ARGON_KEY_LENGTH)
  }

  /** What a new hash of the password holds. */
  function Fresh(kdf: KeyDerivation, password: string, salt: Bytes): Encoded {
    Encoded(ARGON_MEMORY, ARGON_ITERATIONS, ARGON_PARALLELISM, salt, Derived(kdf, password, salt))
  }

  /** The salt is the random input. */
  function HashPassword(kdf: KeyDerivation, password: string, salt: Bytes): Result<string> {
    if !ValidPassword(password) then Failure(InvalidPassword)
    else Success(Print(Fresh(kdf, password, salt)))
  }

  // ---------------------------------------------------------------- parsing

  /** The key and the value of one parameter. */
  function ParseParameter(parameter: string): Option<(string, nat)> {
    match Cut(parameter, '=')
    case None => None
    case Some(pair) => match ParseUint32(pair.1)
                       case None => None
                       case Some(value) => Some((pair.0, value))
  }

  /** All parameters, where a later one replaces an earlier one of the same key. */
  function ParseParameters(items: seq<string>): Option<map<string, nat>> {
    if items == [] then Some(map[]) else
      match (ParseParameters(items[..|items| - 1]), ParseParameter(items[|items| - 1]))
      case (Some(m), Some(pair)) => Some(m[pair.0 := pair.1])
      case _ => None
  }

  function Positive(m: map<string, nat>, key: string): bool { key in m && m[key] > 0 }

  function ParseFields(m: map<string, nat>, saltText: string, expectedText: string): Option<Encoded> {
    if !Positive(m, "m") || !Positive(m, "t") || !Positive(m, "p") then None else
      match (Base64.Decode(Base64.Std, saltText), Base64.Decode(Base64.Std, expectedText))
      case (Some(salt), Some(expected)) =>
        if |salt| < 8 || expected == [] then None else Some(Encoded(m["m"], m["t"], m["p"], salt, expected))
      case _ => None
  }

  function Parse(encoded: string): Option<Encoded> {
    var parts := Split(encoded, '$');
    if |parts| != 6 || parts[1] != "argon2id" || parts[2] != "v=19" then None else
      match ParseParameters(Split(parts[3], ','))
      case None => None
      case Some(m) => ParseFields(m, parts[4], parts[5])
  }

  /** The comparison of VerifyPassword; the thread count is cut to eight bits. */
  function Verify(kdf: KeyDerivation, encoded: string, password: string): bool {
    match Parse(encoded)
    case None => false
    case Some(e) => kdf(password, e.salt, e.iterations, e.memory, e.parallelism % 256, |e.expected|) == e.expected
  }

  /** VerifyPassword itself: the parameter map is filled in a loop, with an early return for every malformed part. */
  method VerifyPassword(kdf: KeyDerivation, encoded: string, password: string) returns (ok: bool)
    ensures ok == Verify(kdf, encoded, password)
  {
    var parts := Split(encoded, '$');
    if |parts| != 6 || parts[1] != "argon2id" || parts[2] != "v=19" {
      return false;
    }
    var items := Split(parts[3], ',');
    var parameters: map<string, nat> := map[];
    for i := 0 to |items|
      invariant ParseParameters(items[..i]) == Some(parameters)
    {
      assert items[..i + 1][..i] == items[..i];
      var keyValue := Cut(items[i], '=');
      if keyValue.None? {
        RejectedPrefix(items, i + 1);
        return false;
      }
      var value := ParseUint32(keyValue.value.1);
      if value.None? {
        RejectedPrefix(items, i + 1);
        return false;
      }
      parameters := parameters[keyValue.value.0 := value.value];
    }
    assert items[..|items|] == items;
    if "m" !in parameters || "t" !in parameters || "p" !in parameters
       || parameters["m"] == 0 || parameters["t"] == 0 || parameters["p"] == 0
    {
      return false;
    }
    var salt := Base64.Decode(Base64.Std, parts[4]);
    if salt.None? || |salt.value| < 8 {
      return false;
    }
    var expected := Base64.Decode(Base64.Std, parts[5]);
    if expected.None? || |expected.value| == 0 {
      return false;
    }
    var actual := kdf(password, salt.value, parameters["t"], parameters["m"], parameters["p"] % 256, |expected.value|);
    return actual == expected.value;
  }

  lemma {:induction false} RejectedPrefix(items: seq<string>, n: nat)
    requires n <= |items| && ParseParameters(items[..n]).None?
    ensures ParseParameters(items).None?
    decreases |items| - n
  {
    if n < |items| {
      assert items[..n + 1][..n] == items[..n];
      RejectedPrefix(items, n + 1);
    } else {
      assert items[..n] == items;
    }
  }

  // ---------------------------------------------------------------- the parser undoes the printer

  lemma {:induction false} PrintedNumber(n: nat)
    ensures '$' !in FormatInt(n) && ',' !in FormatInt(n) && '=' !in FormatInt(n)
  {
    DigitsRoundTrip(n);
  }

  lemma {:induction false} ParsePrintedParameter(key: char, n: nat)
    requires key != '='
    ensures ParseParameter(PrintParameter(key, n)) == if n < UINT32_LIMIT then Some(([key], n)) else None
  {
    var s := PrintParameter(key, n);
    IndexAt(s, '=', 1);
    assert s[..1] == [key] && s[2..] == FormatInt(n);
    Uint32RoundTrip(n);
  }

  lemma {:induction false} AppendParameter(items: seq<string>, item: string)
    ensures ParseParameters(items + [item]) ==
            match (ParseParameters(items), ParseParameter(item)) {
              case (Some(m), Some(pair)) => Some(m[pair.0 := pair.1])
              case _ => None
            }
  {
    assert (items + [item])[..|items|] == items;
  }

  lemma {:induction false} ParsePrintedParameters(e: Encoded)
    ensures var fits := e.memory < UINT32_LIMIT && e.iterations < UINT32_LIMIT && e.parallelism < UINT32_LIMIT;
            ParseParameters(PrintParameters(e)) ==
            if fits then Some(map["m" := e.memory, "t" := e.iterations, "p" := e.parallelism]) else None
  {
    var m := PrintParameter('m', e.memory);
    var t := PrintParameter('t', e.iterations);
    var p := PrintParameter('p', e.parallelism);
    ParsePrintedParameter('m', e.memory);
    ParsePrintedParameter('t', e.iterations);
    ParsePrintedParameter('p', e.parallelism);
    AppendParameter([], m);
    AppendParameter([] + [m], t);
    AppendParameter([] + [m] + [t], p);
    assert PrintParameters(e) == [] + [m] + [t] + [p];
  }

  lemma {:induction false} PrintedPartsClean(e: Encoded)
    ensures Split(Join(PrintParameters(e), ','), ',') == PrintParameters(e)
    ensures Split(Print(e), '$') == PrintParts(e)
  {
    PrintedNumber(e.memory);
    PrintedNumber(e.iterations);
    PrintedNumber(e.parallelism);
    SplitJoin(PrintParameters(e), ',');
    Base64.EncodedText(Base64.Std, e.salt);
    Base64.EncodedText(Base64.Std, e.expected);
    JoinedWithout(PrintParameters(e), ',', '$');
    SplitJoin(PrintParts(e), '$');
  }

  lemma {:induction false} JoinedWithout(parts: seq<string>, sep: char, c: char)
    requires parts != [] && sep != c && forall i :: 0 <= i < |parts| ==> c !in parts[i]
    ensures c !in Join(parts, sep)
  {
    if |parts| > 1 {
      JoinedWithout(parts[1..], sep, c);
    }
  }

  /** What a hash can hold and still be parsed back. */
  predicate Acceptable(e: Encoded) {
    && 0 < e.memory < UINT32_LIMIT && 0 < e.iterations < UINT32_LIMIT && 0 < e.parallelism < UINT32_LIMIT
    && |e.salt| >= 8 && e.expected != []
  }

  /** Parsing a printed hash gives back its parameters, salt and key, exactly when the three numbers are positive and
      fit 32 bits, the salt has at least eight bytes and the key is not empty; any other printed hash is rejected. */
  lemma {:induction false} ParsePrinted(e: Encoded)
    ensures Parse(Print(e)) == if Acceptable(e) then Some(e) else None
  {
    PrintedPartsClean(e);
    ParsePrintedParameters(e);
    Base64.RoundTrip(Base64.Std, e.salt);
    Base64.RoundTrip(Base64.Std, e.expected);
  }

  lemma {:induction false} VerifiesPrinted(kdf: KeyDerivation, e: Encoded, candidate: string)
    requires Acceptable(e)
    ensures Verify(kdf, Print(e), candidate) <==>
            kdf(candidate, e.salt, e.iterations, e.memory, e.parallelism % 256, |e.expected|) == e.expected
  {
    ParsePrinted(e);
  }

  /** A stored hash verifies a password exactly when the key derivation gives that password the stored key; in
      particular it verifies the password it was made from. */
  lemma {:induction false} VerifiesHashed(kdf: KeyDerivation, password: string, salt: Bytes, candidate: string)
    requires ValidPassword(password) && |salt| == ARGON_SALT_LENGTH
    requires |Derived(kdf, password, salt)| == ARGON_KEY_LENGTH
    ensures HashPassword(kdf, password, salt).Success?
    ensures Verify(kdf, HashPassword(kdf, password, salt).value, candidate) <==>
            Derived(kdf, candidate, salt) == Derived(kdf, password, salt)
  {
    VerifiesPrinted(kdf, Fresh(kdf, password, salt), candidate);
  }

  // ---------------------------------------------------------------- what is hashed, printed and accepted

  /** A password is hashed exactly when it has 15 to 128 code points; the hash is this text. */
  lemma {:induction false} HashedExactly(kdf: KeyDerivation, password: string, salt: Bytes)
    ensures HashPassword(kdf, password, salt) ==
            if 15 <= |password| <= 128 then
              Success("$argon2id$v=19$m=65536,t=3,p=1$" + Base64.Encode(Base64.Std, salt) + "$" +
                      Base64.Encode(Base64.Std, kdf(password, salt, 3, 65536, 1, 32)))
            else Failure(InvalidPassword)
  {
    hide Join;
    hide Print;
    hide PrintParameters;
    hide Base64.Encode;
    if 15 <= |password| <= 128 {
      var e := Fresh(kdf, password, salt);
      PrintedText(e);
      FreshParameters(e);
      assert "$argon2id$v=19$" + "m=65536,t=3,p=1" + "$" == "$argon2id$v=19$m=65536,t=3,p=1$";
    }
  }

  lemma {:induction false} FreshParameters(e: Encoded)
    requires e.memory == 65536 && e.iterations == 3 && e.parallelism == 1
    ensures Join(PrintParameters(e), ',') == "m=65536,t=3,p=1"
  {
    PrintedConstants();
    var ps := PrintParameters(e);
    assert ps[0] == "m=" + "65536" && ps[1] == "t=" + "3" && ps[2] == "p=" + "1";
    assert Join(ps, ',') == ps[0] + [','] + Join(ps[1..], ',');
    assert Join(ps[1..], ',') == ps[1] + [','] + Join(ps[1..][1..], ',');
  }

  lemma {:induction false} PrintedConstants()
    ensures FormatInt(65536) == "65536" && FormatInt(3) == "3" && FormatInt(1) == "1"
  {
    assert FormatNat(6) == "6";
    assert FormatNat(65) == "65";
    assert FormatNat(655) == "655";
    assert FormatNat(6553) == "6553";
  }

  lemma {:induction false} PrintedText(e: Encoded)
    ensures Print(e) == "$argon2id$v=19$" + Join(PrintParameters(e), ',') + "$" + Base64.Encode(Base64.Std, e.salt)
                        + "$" + Base64.Encode(Base64.Std, e.expected)
  {
    hide PrintParameters;
    hide Join;
    hide Base64.Encode;
    var parts := PrintParts(e);
    JoinedLast(parts, '$');
    assert "" + ("$" + ("argon2id" + ("$" + ("v=19" + "$")))) == "$argon2id$v=19$";
  }

  lemma {:induction false} JoinedLast(parts: seq<string>, sep: char)
    requires |parts| == 6
    ensures Join(parts, sep) == parts[0] + ([sep] + (parts[1] + ([sep] + (parts[2] + [sep])))) + parts[3] + [sep]
                                + parts[4] + [sep] + parts[5]
  {
    var from3 := parts[3] + [sep] + (parts[4] + [sep] + parts[5]);
    assert Join(parts[3..], sep) == from3 by {
      assert Join(parts[3..], sep) == parts[3] + [sep] + Join(parts[3..][1..], sep);
      assert parts[3..][1..] == parts[4..];
      assert Join(parts[4..], sep) == parts[4] + [sep] + Join(parts[4..][1..], sep);
    }
    assert parts[2..][1..] == parts[3..] && parts[1..][1..] == parts[2..];
    assert Join(parts[2..], sep) == parts[2] + [sep] + from3;
    assert Join(parts[1..], sep) == parts[1] + [sep] + (parts[2] + [sep] + from3);
  }

  /** The item is key=digits, with a key free of "=" and the value of the digits, at least one, below 2^32. */
  ghost predicate IsSetting(item: string, key: string, value: nat) {
    '=' !in key && value < 0x1_0000_0000 &&
    exists digits :: digits != "" && item == key + "=" + digits && DigitsValue(digits) == Some(value)
  }

  /** This item sets the key to the value, and no later one sets the key. */
  ghost predicate SetAt(items: seq<string>, key: string, value: nat, i: int) {
    && 0 <= i < |items| && IsSetting(items[i], key, value)
    && forall j, other :: i < j < |items| ==> !IsSetting(items[j], key, other)
  }

  ghost predicate LastSetting(items: seq<string>, key: string, value: nat) { exists i :: SetAt(items, key, value, i) }

  ghost predicate Sets(item: string) { exists key, value :: IsSetting(item, key, value) }

  ghost predicate AllSettings(items: seq<string>) { forall i :: 0 <= i < |items| ==> Sets(items[i]) }

  lemma {:induction false} ParameterExactly(item: string, key: string, value: nat)
    ensures ParseParameter(item) == Some((key, value)) <==> IsSetting(item, key, value)
  {
    if ParseParameter(item) == Some((key, value)) {
      var i := IndexOf(item, '=');
      assert item == key + "=" + item[i + 1..];
    }
    if IsSetting(item, key, value) {
      var digits :| digits != "" && item == key + "=" + digits && DigitsValue(digits) == Some(value);
      IndexAt(item, '=', |key|);
      assert item[..|key|] == key && item[|key| + 1..] == digits;
    }
  }

  predicate SetIn(m: map<string, nat>, key: string, value: nat) { key in m && m[key] == value }

  /** The parameters are read exactly when every item is a setting, and the last setting of a key wins. */
  lemma {:induction false} ParametersExactly(items: seq<string>)
    ensures ParseParameters(items).Some? <==> AllSettings(items)
    ensures ParseParameters(items).Some? ==>
              forall key, value :: SetIn(ParseParameters(items).value, key, value) <==> LastSetting(items, key, value)
  {
    if items != [] {
      var n := |items| - 1;
      ParametersExactly(items[..n]);
      AllButLast(items);
      var parsed := ParseParameter(items[n]);
      if parsed.Some? {
        ParameterExactly(items[n], parsed.value.0, parsed.value.1);
      }
      if Sets(items[n]) {
        var key, value :| IsSetting(items[n], key, value);
        ParameterExactly(items[n], key, value);
      }
      if ParseParameters(items).Some? {
        forall key, value
          ensures SetIn(ParseParameters(items).value, key, value) <==> LastSetting(items, key, value)
        {
          LastItem(items, parsed.value.0, parsed.value.1, key, value);
        }
      }
    } else {
      assert forall key, value :: !LastSetting(items, key, value);
    }
  }

  lemma {:induction false} AllButLast(items: seq<string>)
    requires items != []
    ensures AllSettings(items) <==> AllSettings(items[..|items| - 1]) && Sets(items[|items| - 1])
  {
    hide Sets;
    var n := |items| - 1;
    assert forall i :: 0 <= i < n ==> items[..n][i] == items[i];
  }

  /** An item sets at most one key, to one value. */
  lemma {:induction false} OneSetting(item: string, key: string, value: nat, key': string, value': nat)
    requires IsSetting(item, key, value) && IsSetting(item, key', value')
    ensures key == key' && value == value'
  {
    ParameterExactly(item, key, value);
    ParameterExactly(item, key', value');
  }

  lemma {:induction false} LastItem(items: seq<string>, last: string, v: nat, key: string, value: nat)
    requires items != [] && IsSetting(items[|items| - 1], last, v)
    ensures LastSetting(items, key, value) <==>
            if key == last then value == v else LastSetting(items[..|items| - 1], key, value)
  {
    hide IsSetting;
    var n := |items| - 1;
    if LastSetting(items, key, value) {
      var i :| SetAt(items, key, value, i);
      if i == n {
        OneSetting(items[n], last, v, key, value);
      } else {
        assert key != last;
        assert SetAt(items[..n], key, value, i);
      }
    }
    if key == last && value == v {
      assert SetAt(items, key, value, n);
    }
    if key != last && LastSetting(items[..n], key, value) {
      var i :| SetAt(items[..n], key, value, i);
      forall j, other | i < j < |items| ensures !IsSetting(items[j], key, other) {
        if j < n {
          assert items[j] == items[..n][j];
        } else if IsSetting(items[n], key, other) {
          OneSetting(items[n], last, v, key, other);
        }
      }
      assert SetAt(items, key, value, i);
    }
  }

  /** The text of a stored hash with these four parts. Its first part, in front of "$argon2id", may be anything. */
  function HashText(head: string, settings: string, salt: string, key: string): string {
    head + "$argon2id$v=19$" + settings + "$" + salt + "$" + key
  }

  /** What the parts of a stored hash have to hold. */
  ghost predicate PartsHold(e: Encoded, head: string, settings: string, salt: string, key: string) {
    && '$' !in head && '$' !in settings && '$' !in salt && '$' !in key
    && SettingsHold(e, Split(settings, ','))
    && Base64.Decode(Base64.Std, salt) == Some(e.salt) && Base64.Decode(Base64.Std, key) == Some(e.expected)
  }

  ghost predicate SettingsHold(e: Encoded, items: seq<string>) {
    && AllSettings(items)
    && LastSetting(items, "m", e.memory) && LastSetting(items, "t", e.iterations)
    && LastSetting(items, "p", e.parallelism)
  }

  ghost predicate Holds(encoded: string, e: Encoded) {
    && e.memory > 0 && e.iterations > 0 && e.parallelism > 0 && |e.salt| >= 8 && e.expected != []
    && exists head, settings, salt, key :: encoded == HashText(head, settings, salt, key) &&
                                           PartsHold(e, head, settings, salt, key)
  }

  lemma {:induction false} SplitHash(head: string, settings: string, salt: string, key: string)
    requires '$' !in head && '$' !in settings && '$' !in salt && '$' !in key
    ensures Split(HashText(head, settings, salt, key), '$') == [head, "argon2id", "v=19", settings, salt, key]
  {
    var parts := [head, "argon2id", "v=19", settings, salt, key];
    SplitJoin(parts, '$');
    HashJoined(parts);
  }

  lemma {:induction false} HashJoined(parts: seq<string>)
    requires |parts| == 6 && parts[1] == "argon2id" && parts[2] == "v=19"
    ensures Join(parts, '$') == HashText(parts[0], parts[3], parts[4], parts[5])
  {
    hide Join;
    JoinedLast(parts, '$');
    assert "$" + ("argon2id" + ("$" + ("v=19" + "$"))) == "$argon2id$v=19$";
  }

  lemma {:induction false} FieldsExactly(m: map<string, nat>, items: seq<string>, salt: string, key: string, e: Encoded)
    requires ParseParameters(items) == Some(m)
    ensures ParseFields(m, salt, key) == Some(e) <==>
            && e.memory > 0 && e.iterations > 0 && e.parallelism > 0 && |e.salt| >= 8 && e.expected != []
            && SettingsHold(e, items)
            && Base64.Decode(Base64.Std, salt) == Some(e.salt) && Base64.Decode(Base64.Std, key) == Some(e.expected)
  {
    hide Base64.Decode;
    hide LastSetting;
    hide AllSettings;
    ParametersExactly(items);
    assert SetIn(m, "m", e.memory) <==> LastSetting(items, "m", e.memory);
    assert SetIn(m, "t", e.iterations) <==> LastSetting(items, "t", e.iterations);
    assert SetIn(m, "p", e.parallelism) <==> LastSetting(items, "p", e.parallelism);
  }

  /** Exactly these texts are read as stored hashes: "argon2id" and "v=19" between parts without "$", settings of which
      the last m, t and p are positive, a salt of at least eight bytes and a key that is not empty. */
  lemma {:induction false} ParseExactly(encoded: string, e: Encoded)
    ensures Parse(encoded) == Some(e) <==> Holds(encoded, e)
  {
    hide Join;
    hide Split;
    hide ParseParameters;
    hide ParseFields;
    hide SettingsHold;
    if Parse(encoded) == Some(e) {
      JoinSplit(encoded, '$');
      var parts := Split(encoded, '$');
      var items := Split(parts[3], ',');
      HashJoined(parts);
      FieldsExactly(ParseParameters(items).value, items, parts[4], parts[5], e);
      assert encoded == HashText(parts[0], parts[3], parts[4], parts[5]);
      assert PartsHold(e, parts[0], parts[3], parts[4], parts[5]);
    }
    if Holds(encoded, e) {
      var head, settings, salt, key :|
        encoded == HashText(head, settings, salt, key) && PartsHold(e, head, settings, salt, key);
      HeldIsParsed(e, head, settings, salt, key);
    }
  }

  lemma {:induction false} HeldIsParsed(e: Encoded, head: string, settings: string, salt: string, key: string)
    requires PartsHold(e, head, settings, salt, key)
    requires e.memory > 0 && e.iterations > 0 && e.parallelism > 0 && |e.salt| >= 8 && e.expected != []
    ensures Parse(HashText(head, settings, salt, key)) == Some(e)
  {
    hide Split;
    hide ParseParameters;
    hide ParseFields;
    hide HashText;
    var items := Split(settings, ',');
    SplitHash(head, settings, salt, key);
    ParametersExactly(items);
    FieldsExactly(ParseParameters(items).value, items, salt, key, e);
  }

  /** A password is verified exactly when the text is a stored hash whose key the derivation gives that password, with
      the stored parameters; the thread count is cut to eight bits. */
  lemma {:induction false} VerifiesExactly(kdf: KeyDerivation, encoded: string, password: string)
    ensures Verify(kdf, encoded, password) <==>
            exists e :: Holds(encoded, e) &&
                        kdf(password, e.salt, e.iterations, e.memory, e.parallelism % 256, |e.expected|) == e.expected
  {
    hide Parse;
    hide Holds;
    if Parse(encoded).Some? {
      ParseExactly(encoded, Parse(encoded).value);
    }
    forall e ensures Holds(encoded, e) <==> Parse(encoded) == Some(e) {
      ParseExactly(encoded, e);
    }
  }
}
