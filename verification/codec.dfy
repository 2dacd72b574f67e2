/**
 * The broker's `Message` and its JSON form.
 *
 * `ToJson` produces the object encoding/json writes for the Go struct:
 * the five fields in declaration order, tagged with their Go names, the
 * strings quoted and the timestamp as a decimal integer. Inside strings
 * only `"` and `\` are escaped. `JsonToMessage` accepts exactly the texts
 * `ToJson` produces and reports anything else as an error, returning the
 * zero message alongside it.
 */
module Codec {
  import opened Wrappers

  const MinInt64: int := -0x8000_0000_0000_0000
  const MaxInt64: int := 0x7fff_ffff_ffff_ffff

  type Int64 = x: int | MinInt64 <= x <= MaxInt64

  datatype Message = Message(
    text: string,
    userName: string,
    userId: string,
    channelId: string,
    timestamp: Int64)

  /** Go's zero value `Message{}`. */
  const ZeroMessage: Message := Message("", "", "", "", 0)

  /** Malformed JSON, or a timestamp that does not fit in an int64. */
  datatype DecodeError = SyntaxError | RangeError

  // ---------------------------------------------------------------- encoding

  function EscapeChar(c: char): string {
    if c == '"' || c == '\\' then ['\\', c] else [c]
  }

  function Escape(s: string): string {
    if |s| == 0 then [] else EscapeChar(s[0]) + Escape(s[1..])
  }

  function Quote(s: string): string {
    "\"" + (Escape(s) + "\"")
  }

  predicate IsDigit(c: char) {
    '0' <= c <= '9'
  }

  function DigitChar(d: nat): (c: char)
    requires d < 10
    ensures IsDigit(c) && DigitValue(c) == d
  {
    (('0' as int) + d) as char
  }

  function DigitValue(c: char): nat
    requires IsDigit(c)
  {
    (c as int) - ('0' as int)
  }

  /** Decimal digits of `n`, most significant first, no leading zero. */
  function NatToDigits(n: nat): string
    decreases n
  {
    if n < 10 then [DigitChar(n)] else NatToDigits(n / 10) + [DigitChar(n % 10)]
  }

  function IntToDecimal(n: int): string {
    if n < 0 then "-" + NatToDigits(-n) else NatToDigits(n)
  }

  /**
   * The JSON text stored for the struct. The concatenation is nested to
   * the right so that each field is followed by the rest of the text.
   */
  function ToJson(m: Message): string {
    "{\"Text\":" + (Quote(m.text) +
    (",\"UserName\":" + (Quote(m.userName) +
    (",\"UserID\":" + (Quote(m.userId) +
    (",\"ChannelID\":" + (Quote(m.channelId) +
    (",\"Timestamp\":" + (IntToDecimal(m.timestamp) + "}")))))))))
  }

  // ---------------------------------------------------------------- decoding

  /** Consumes the literal `lit` at the front of `s`. */
  function Expect(lit: string, s: string): (r: Result<string, DecodeError>)
    ensures r.Success? <==> lit <= s
    ensures r.Success? ==> s == lit + r.value
  {
    if lit <= s then Success(s[|lit|..]) else Failure(SyntaxError)
  }

  /** Reads string contents up to the closing quote; yields the value and what follows the quote. */
  function ParseStringBody(s: string): Result<(string, string), DecodeError>
    decreases |s|
  {
    if |s| == 0 then Failure(SyntaxError)
    else if s[0] == '"' then Success(([], s[1..]))
    else if s[0] == '\\' then
      if |s| >= 2 && (s[1] == '"' || s[1] == '\\') then
        var p :- ParseStringBody(s[2..]);
        Success(([s[1]] + p.0, p.1))
      else
        Failure(SyntaxError)
    else
      var p :- ParseStringBody(s[1..]);
      Success(([s[0]] + p.0, p.1))
  }

  function ParseString(s: string): Result<(string, string), DecodeError> {
    var t :- Expect("\"", s);
    ParseStringBody(t)
  }

  /** The longest run of digits at the front of `s`. */
  function DigitSpan(s: string): (d: string)
    ensures d <= s
    ensures forall i :: 0 <= i < |d| ==> IsDigit(d[i])
    ensures |d| == |s| || !IsDigit(s[|d|])
  {
    if |s| > 0 && IsDigit(s[0]) then [s[0]] + DigitSpan(s[1..]) else []
  }

  predicate AllDigits(d: string) {
    forall i :: 0 <= i < |d| ==> IsDigit(d[i])
  }

  function DigitsToNat(d: string): nat
    requires AllDigits(d)
  {
    if |d| == 0 then 0 else DigitsToNat(d[..|d| - 1]) * 10 + DigitValue(d[|d| - 1])
  }

  /** A JSON integer has at least one digit and no leading zero. */
  predicate WellFormedDigits(d: string) {
    |d| > 0 && (d[0] != '0' || |d| == 1)
  }

  /**
   * Reads an integer at the front of `s`. "-0", which JSON allows, is
   * refused because `ToJson` never writes it.
   */
  function ParseInt(s: string): Result<(int, string), DecodeError> {
    if |s| > 0 && s[0] == '-' then
      var d := DigitSpan(s[1..]);
      var magnitude: int := DigitsToNat(d);
      if WellFormedDigits(d) && d != "0" then Success((-magnitude, s[1 + |d|..]))
      else Failure(SyntaxError)
    else
      var d := DigitSpan(s);
      if WellFormedDigits(d) then Success((DigitsToNat(d), s[|d|..]))
      else Failure(SyntaxError)
  }

  /** Reads the field tag `tag` and the quoted string after it. */
  function ParseStringField(tag: string, s: string): Result<(string, string), DecodeError> {
    var t :- Expect(tag, s);
    ParseString(t)
  }

  /** Reads the timestamp field and the closing brace that ends the text. */
  function ParseTimestampField(s: string): Result<Int64, DecodeError> {
    var t :- Expect(",\"Timestamp\":", s);
    var n :- ParseInt(t);
    var end :- Expect("}", n.1);
    if end != [] then Failure(SyntaxError)
    else if !(MinInt64 <= n.0 <= MaxInt64) then Failure(RangeError)
    else Success(n.0)
  }

  function ParseMessage(s: string): Result<Message, DecodeError> {
    var text :- ParseStringField("{\"Text\":", s);
    var userName :- ParseStringField(",\"UserName\":", text.1);
    var userId :- ParseStringField(",\"UserID\":", userName.1);
    var channelId :- ParseStringField(",\"ChannelID\":", userId.1);
    var timestamp :- ParseTimestampField(channelId.1);
    Success(Message(text.0, userName.0, userId.0, channelId.0, timestamp))
  }

  /**
   * JsonToMessage: on success the decoded message and no error; on
   * failure Go's zero `Message{}` and the error.
   */
  function JsonToMessage(s: string): (r: (Message, Option<DecodeError>))
    ensures r.1.Some? ==> r.0 == ZeroMessage
    ensures r.1.None? ==> ToJson(r.0) == s
  {
    match ParseMessage(s)
    case Success(m) =>
      ParseExact(s);
      (m, None)
    case Failure(e) => (ZeroMessage, Some(e))
  }

  // ---------------------------------------------------------------- strings

  /** Reading escaped contents back stops at the closing quote and yields the original. */
  lemma {:induction false} StringBodyRoundTrip(x: string, rest: string)
    ensures ParseStringBody(Escape(x) + ("\"" + rest)) == Success((x, rest))
    decreases |x|
  {
    if |x| == 0 {
      assert Escape(x) + ("\"" + rest) == "\"" + rest;
    } else {
      var tail := Escape(x[1..]) + ("\"" + rest);
      var s := EscapeChar(x[0]) + tail;
      assert Escape(x) + ("\"" + rest) == s;
      StringBodyRoundTrip(x[1..], rest);
      if x[0] == '"' || x[0] == '\\' {
        assert s[2..] == tail;
      } else {
        assert s[1..] == tail;
      }
      assert [x[0]] + x[1..] == x;
    }
  }

  /** Whatever string contents are accepted are exactly an escaped value and a quote. */
  lemma {:induction false} StringBodyExact(s: string)
    requires ParseStringBody(s).Success?
    ensures s == Escape(ParseStringBody(s).value.0) + ("\"" + ParseStringBody(s).value.1)
    decreases |s|
  {
    var v := ParseStringBody(s).value;
    if s[0] == '"' {
      assert s == "\"" + s[1..];
    } else {
      var k := if s[0] == '\\' then 2 else 1;
      var c := if s[0] == '\\' then s[1] else s[0];
      StringBodyExact(s[k..]);
      var p := ParseStringBody(s[k..]).value;
      assert v == ([c] + p.0, p.1);
      assert ([c] + p.0)[1..] == p.0;
      assert Escape([c] + p.0) == EscapeChar(c) + Escape(p.0);
      assert s[..k] == EscapeChar(c);
      assert s == s[..k] + s[k..];
    }
  }

  lemma QuoteRoundTrip(x: string, rest: string)
    ensures ParseString(Quote(x) + rest) == Success((x, rest))
  {
    var s := Quote(x) + rest;
    assert s == "\"" + (Escape(x) + ("\"" + rest));
    StringBodyRoundTrip(x, rest);
  }

  lemma QuoteExact(s: string)
    requires ParseString(s).Success?
    ensures s == Quote(ParseString(s).value.0) + ParseString(s).value.1
  {
    var t := Expect("\"", s).value;
    StringBodyExact(t);
    var p := ParseStringBody(t).value;
    assert s == "\"" + (Escape(p.0) + ("\"" + p.1));
  }

  // ---------------------------------------------------------------- integers

  lemma {:induction false} NatToDigitsFacts(n: nat)
    ensures AllDigits(NatToDigits(n)) && WellFormedDigits(NatToDigits(n))
    ensures DigitsToNat(NatToDigits(n)) == n
    ensures NatToDigits(n) == "0" <==> n == 0
    decreases n
  {
    var d := NatToDigits(n);
    if n >= 10 {
      NatToDigitsFacts(n / 10);
      var front := NatToDigits(n / 10);
      assert d == front + [DigitChar(n % 10)];
      assert d[..|d| - 1] == front;
      assert d[0] == front[0];
      if |front| == 1 {
        assert DigitValue(front[0]) == n / 10;
      }
    }
  }

  lemma {:induction false} DigitsToNatFacts(d: string)
    requires AllDigits(d) && WellFormedDigits(d)
    ensures NatToDigits(DigitsToNat(d)) == d
    decreases |d|
  {
    if |d| == 1 {
      assert DigitChar(DigitValue(d[0])) == d[0];
      assert d == [d[0]];
    } else {
      var front := d[..|d| - 1];
      var last := d[|d| - 1];
      assert front[0] == d[0];
      DigitsToNatFacts(front);
      var v := DigitsToNat(front);
      assert v != 0 by {
        NatToDigitsFacts(v);
      }
      var n := DigitsToNat(d);
      assert n == v * 10 + DigitValue(last);
      assert n / 10 == v && n % 10 == DigitValue(last);
      assert DigitChar(DigitValue(last)) == last;
      assert d == front + [last];
    }
  }

  lemma {:induction false} DigitSpanOf(d: string, rest: string)
    requires AllDigits(d)
    requires |rest| == 0 || !IsDigit(rest[0])
    ensures DigitSpan(d + rest) == d
    decreases |d|
  {
    if |d| > 0 {
      assert (d + rest)[1..] == d[1..] + rest;
      DigitSpanOf(d[1..], rest);
      assert d == [d[0]] + d[1..];
    } else {
      assert d + rest == rest;
    }
  }

  lemma NatRoundTrip(n: nat, rest: string)
    requires |rest| > 0 && !IsDigit(rest[0])
    ensures ParseInt(NatToDigits(n) + rest) == Success((n, rest))
  {
    var d := NatToDigits(n);
    var s := d + rest;
    NatToDigitsFacts(n);
    assert s[0] == d[0];
    DigitSpanOf(d, rest);
    assert s[|d|..] == rest;
  }

  lemma NegativeRoundTrip(n: int, rest: string)
    requires n < 0
    requires |rest| > 0 && !IsDigit(rest[0])
    ensures ParseInt("-" + NatToDigits(-n) + rest) == Success((n, rest))
  {
    var d := NatToDigits(-n);
    var s := "-" + d + rest;
    NatToDigitsFacts(-n);
    assert s[1..] == d + rest;
    DigitSpanOf(d, rest);
    assert s[1 + |d|..] == rest;
  }

  lemma IntRoundTrip(n: int, rest: string)
    requires |rest| > 0 && !IsDigit(rest[0])
    ensures ParseInt(IntToDecimal(n) + rest) == Success((n, rest))
  {
    if n < 0 {
      NegativeRoundTrip(n, rest);
    } else {
      NatRoundTrip(n, rest);
    }
  }

  lemma NegativeExact(s: string)
    requires |s| > 0 && s[0] == '-' && ParseInt(s).Success?
    ensures s == IntToDecimal(ParseInt(s).value.0) + ParseInt(s).value.1
  {
    var d := DigitSpan(s[1..]);
    DigitsToNatFacts(d);
    NatToDigitsFacts(DigitsToNat(d));
    assert s == "-" + (d + s[1 + |d|..]);
  }

  lemma NatExact(s: string)
    requires !(|s| > 0 && s[0] == '-') && ParseInt(s).Success?
    ensures s == IntToDecimal(ParseInt(s).value.0) + ParseInt(s).value.1
  {
    var d := DigitSpan(s);
    DigitsToNatFacts(d);
    assert s == d + s[|d|..];
  }

  lemma IntExact(s: string)
    requires ParseInt(s).Success?
    ensures s == IntToDecimal(ParseInt(s).value.0) + ParseInt(s).value.1
  {
    if |s| > 0 && s[0] == '-' {
      NegativeExact(s);
    } else {
      NatExact(s);
    }
  }

  // ---------------------------------------------------------------- messages

  lemma StringFieldRoundTrip(tag: string, x: string, rest: string)
    ensures ParseStringField(tag, tag + (Quote(x) + rest)) == Success((x, rest))
  {
    assert (tag + (Quote(x) + rest))[|tag|..] == Quote(x) + rest;
    QuoteRoundTrip(x, rest);
  }

  lemma StringFieldExact(tag: string, s: string)
    requires ParseStringField(tag, s).Success?
    ensures s == tag + (Quote(ParseStringField(tag, s).value.0) + ParseStringField(tag, s).value.1)
  {
    QuoteExact(Expect(tag, s).value);
  }

  lemma TimestampFieldRoundTrip(n: Int64)
    ensures ParseTimestampField(",\"Timestamp\":" + (IntToDecimal(n) + "}")) == Success(n)
  {
    var s := ",\"Timestamp\":" + (IntToDecimal(n) + "}");
    assert Expect(",\"Timestamp\":", s) == Success(IntToDecimal(n) + "}");
    IntRoundTrip(n, "}");
  }

  lemma TimestampFieldExact(s: string)
    requires ParseTimestampField(s).Success?
    ensures s == ",\"Timestamp\":" + (IntToDecimal(ParseTimestampField(s).value) + "}")
  {
    var t := Expect(",\"Timestamp\":", s).value;
    IntExact(t);
    var n := ParseInt(t).value;
    assert n.1 == "}";
  }

  /** Decoding an encoded message gives back the message. */
  lemma ParseToJson(m: Message)
    ensures ParseMessage(ToJson(m)) == Success(m)
  {
    var s5 := ",\"Timestamp\":" + (IntToDecimal(m.timestamp) + "}");
    var s4 := ",\"ChannelID\":" + (Quote(m.channelId) + s5);
    var s3 := ",\"UserID\":" + (Quote(m.userId) + s4);
    var s2 := ",\"UserName\":" + (Quote(m.userName) + s3);
    StringFieldRoundTrip("{\"Text\":", m.text, s2);
    StringFieldRoundTrip(",\"UserName\":", m.userName, s3);
    StringFieldRoundTrip(",\"UserID\":", m.userId, s4);
    StringFieldRoundTrip(",\"ChannelID\":", m.channelId, s5);
    TimestampFieldRoundTrip(m.timestamp);
  }

  /** Whatever decodes is exactly the encoding of what it decodes to. */
  lemma ParseExact(s: string)
    requires ParseMessage(s).Success?
    ensures ToJson(ParseMessage(s).value) == s
  {
    var text := ParseStringField("{\"Text\":", s).value;
    StringFieldExact("{\"Text\":", s);
    var userName := ParseStringField(",\"UserName\":", text.1).value;
    StringFieldExact(",\"UserName\":", text.1);
    var userId := ParseStringField(",\"UserID\":", userName.1).value;
    StringFieldExact(",\"UserID\":", userName.1);
    var channelId := ParseStringField(",\"ChannelID\":", userId.1).value;
    StringFieldExact(",\"ChannelID\":", userId.1);
    TimestampFieldExact(channelId.1);
  }

  /** Round trip: JsonToMessage(toJson(m)) is m with no error. */
  lemma JsonRoundTrip(m: Message)
    ensures JsonToMessage(ToJson(m)) == (m, None)
  {
    ParseToJson(m);
  }

  /** Distinct messages are stored as distinct members. */
  lemma ToJsonInjective(a: Message, b: Message)
    ensures ToJson(a) == ToJson(b) ==> a == b
  {
    JsonRoundTrip(a);
    JsonRoundTrip(b);
  }

  /**
   * This decoder succeeds exactly on the encodings of messages; it is the
   * exact inverse of ToJson, narrower than encoding/json.
   */
  lemma DecodesIffEncoded(s: string)
    ensures JsonToMessage(s).1.None? <==> exists m: Message :: ToJson(m) == s
  {
    if exists m: Message :: ToJson(m) == s {
      var m: Message :| ToJson(m) == s;
      JsonRoundTrip(m);
    }
  }
}
