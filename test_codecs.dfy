/**
 * The codecs the codec tests install: a value codec that adds a fixed prefix,
 * a key codec that stores an int offset by 1000 as decimal text, and a value
 * codec for an int-or-string variant that tags each alternative.
 */
module TestCodecs {
  import opened Wrappers
  import opened Text

  const VALUE_PREFIX: string := "PREFIX_"
  const KEY_OFFSET: int := 1000
  const INT_TAG: string := "int:"
  const STRING_TAG: string := "string:"

  // ---------------------------------------------------------------------
  // Prefix value codec

  /** test::encode_value */
  function EncodeValue(value: string): (r: string)
    ensures |r| == |VALUE_PREFIX| + |value| && r[..|VALUE_PREFIX|] == VALUE_PREFIX && r[|VALUE_PREFIX|..] == value
  {
    VALUE_PREFIX + value
  }

  /** test::decode_value: drop the prefix's length; substr raises out_of_range on a shorter text. */
  function DecodeValue(value: string): (r: Result<string, ParseError>)
    ensures r.Success? <==> |value| >= |VALUE_PREFIX|
  {
    match SubstrFrom(value, |VALUE_PREFIX|)
    case None => Failure(ParseError.OutOfRange)
    case Some(rest) => Success(rest)
  }

  lemma DecodeEncodeValue(value: string)
    ensures DecodeValue(EncodeValue(value)) == Success(value)
  {
    assert EncodeValue(value)[|VALUE_PREFIX|..] == value;
  }

  /** On stored text that carries the prefix, encoding the decoded value gives the text back. */
  lemma EncodeDecodeValue(stored: string)
    requires VALUE_PREFIX <= stored
    ensures DecodeValue(stored).Success? && EncodeValue(DecodeValue(stored).value) == stored
  {
    assert stored == stored[..|VALUE_PREFIX|] + stored[|VALUE_PREFIX|..];
  }

  /** The test's own pair: "value-1" is stored as "PREFIX_value-1". */
  lemma ValueCodecExample()
    ensures EncodeValue("value-1") == "PREFIX_value-1"
    ensures DecodeValue("PREFIX_value-1") == Success("value-1")
  {
    DecodeEncodeValue("value-1");
  }

  // ---------------------------------------------------------------------
  // Offset key codec

  /**
   * test::encode_key: the decimal text of key + 1000. The sum is computed in
   * int, so a key above INT_MAX - 1000 overflows, which C++ leaves undefined.
   */
  function EncodeKey(key: Int32): (r: string)
    requires key <= INT_MAX - KEY_OFFSET
    ensures |r| > 0 && (key + KEY_OFFSET < 0 <==> r[0] == '-')
  {
    IntToString(key + KEY_OFFSET)
  }

  /** test::decode_key: std::atoi of the text, less 1000. */
  function DecodeKey(key: string): (r: int)
    ensures LeadingInt(key).None? ==> r == -KEY_OFFSET
    ensures LeadingInt(key).Some? ==> r + KEY_OFFSET == LeadingInt(key).value
  {
    Atoi(key) - KEY_OFFSET
  }

  lemma DecodeEncodeKey(key: Int32)
    requires key <= INT_MAX - KEY_OFFSET
    ensures DecodeKey(EncodeKey(key)) == key
  {
    AtoiOfIntToString(key + KEY_OFFSET);
  }

  /** Distinct keys are stored under distinct texts. */
  lemma EncodeKeyInjective(a: Int32, b: Int32)
    requires a <= INT_MAX - KEY_OFFSET && b <= INT_MAX - KEY_OFFSET
    requires EncodeKey(a) == EncodeKey(b)
    ensures a == b
  {
    DecodeEncodeKey(a);
    DecodeEncodeKey(b);
  }

  /** On stored text that is the decimal of an int, encoding the decoded key gives the text back. */
  lemma EncodeDecodeKey(n: Int32)
    requires INT_MIN + KEY_OFFSET <= n
    ensures DecodeKey(IntToString(n)) == n - KEY_OFFSET
    ensures EncodeKey(n - KEY_OFFSET) == IntToString(n)
  {
    AtoiOfIntToString(n);
  }

  /** The test's own pair: key 42 is stored as "1042". */
  lemma KeyCodecExample()
    ensures EncodeKey(42) == "1042"
    ensures DecodeKey("1042") == 42
  {
    assert NatToString(1) == "1";
    assert NatToString(10) == "10";
    assert NatToString(104) == "104";
    assert NatToString(1042) == "1042";
    DecodeEncodeKey(42);
  }

  // ---------------------------------------------------------------------
  // Variant value codec

  /** std::variant<int, std::string> */
  datatype IntOrString = IntValue(i: Int32) | StringValue(s: string)

  /** The encode lambda: the alternative's tag, then its text. */
  function EncodeVariant(v: IntOrString): (r: string)
    ensures |r| > 0 && (r[0] == 'i' <==> v.IntValue?)
  {
    match v
    case IntValue(i) => INT_TAG + IntToString(i)
    case StringValue(s) => STRING_TAG + s
  }

  /** value[0]: an empty string yields its terminating '\0'. */
  function FirstChar(value: string): char {
    if value == [] then 0 as char else value[0]
  }

  /**
   * The decode lambda: a text starting with 'i' is an int read by std::atoi
   * after the 4-character tag, any other a string after the 7-character
   * tag; substr raises out_of_range on a text shorter than its tag. A value
   * outside int, undefined for std::atoi, is Failure(OutOfRange) here.
   */
  function DecodeVariant(value: string): (r: Result<IntOrString, ParseError>)
    ensures FirstChar(value) == 'i' && r.Success? ==> r.value.IntValue?
    ensures FirstChar(value) != 'i' ==> (r.Success? <==> |value| >= |STRING_TAG|)
  {
    if FirstChar(value) == 'i' then
      match SubstrFrom(value, |INT_TAG|)
      case None => Failure(ParseError.OutOfRange)
      case Some(rest) =>
        var n := Atoi(rest);
        if INT_MIN <= n <= INT_MAX then Success(IntValue(n)) else Failure(ParseError.OutOfRange)
    else
      match SubstrFrom(value, |STRING_TAG|)
      case None => Failure(ParseError.OutOfRange)
      case Some(rest) => Success(StringValue(rest))
  }

  /** Both alternatives read back as they were written. */
  lemma DecodeEncodeVariant(v: IntOrString)
    ensures DecodeVariant(EncodeVariant(v)) == Success(v)
  {
    var e := EncodeVariant(v);
    match v
    case IntValue(i) =>
      assert e[|INT_TAG|..] == IntToString(i);
      AtoiOfIntToString(i);
    case StringValue(s) =>
      assert e[0] == 's';
      assert e[|STRING_TAG|..] == s;
  }

  // ---------------------------------------------------------------------
  // The default codecs

  /** A pair of conversions between a C++ type and its stored form. */
  datatype Codec<!A, !B> = Codec(encode: A -> B, decode: B -> A)

  /** codecs::identity */
  function Identity<T>(x: T): T {
    x
  }

  /** key_codec<T>() and value_codec<T>(): identity in both directions. */
  function IdentityCodec<T>(): Codec<T, T> {
    Codec(Identity, Identity)
  }

  /** decode after encode gives every input back. */
  ghost predicate RoundTrips<A(!new), B>(c: Codec<A, B>) {
    forall a: A :: c.decode(c.encode(a)) == a
  }

  /** The default key and value codecs store strings as they are. */
  lemma DefaultCodecsKeepStrings(key: string, value: string)
    ensures IdentityCodec<string>().encode(key) == key && IdentityCodec<string>().decode(key) == key
    ensures IdentityCodec<string>().encode(value) == value && IdentityCodec<string>().decode(value) == value
    ensures RoundTrips(IdentityCodec<string>())
  {
  }
}
