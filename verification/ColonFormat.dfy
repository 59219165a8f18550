/** Fields joined by colons, and bytes as hexadecimal digits: the text form of an encrypted value. */
module ColonFormat {

  type Byte = b: nat | b < 256
  type Bytes = seq<Byte>

  /** `s.split(':')`. */
  function Split(s: string): (parts: seq<string>)
    ensures |parts| >= 1
  {
    if s == "" then [""]
    else if s[0] == ':' then [""] + Split(s[1..])
    else
      var rest := Split(s[1..]);
      [[s[0]] + rest[0]] + rest[1..]
  }

  /** `parts.join(':')`. */
  function Join(parts: seq<string>): string {
    if parts == [] then ""
    else if |parts| == 1 then parts[0]
    else parts[0] + ":" + Join(parts[1..])
  }

  predicate ColonFree(s: string) {
    ':' !in s
  }

  lemma {:induction false} SplitColonFree(s: string)
    requires ColonFree(s)
    ensures Split(s) == [s]
  {
    if s != "" {
      assert s[0] in s;
      SplitColonFree(s[1..]);
      assert [s[0]] + s[1..] == s;
    }
  }

  lemma {:induction false} SplitAtColon(a: string, rest: string)
    requires ColonFree(a)
    ensures Split(a + ":" + rest) == [a] + Split(rest)
  {
    var s := a + ":" + rest;
    if a == "" {
      assert s[1..] == rest;
    } else {
      assert a[0] in a && s[0] == a[0];
      assert s[1..] == a[1..] + ":" + rest;
      SplitAtColon(a[1..], rest);
      assert [a[0]] + a[1..] == a;
    }
  }

  /** Splitting undoes joining, as long as no field has a colon of its own. */
  lemma {:induction false} SplitJoin(parts: seq<string>)
    requires parts != []
    requires forall i :: 0 <= i < |parts| ==> ColonFree(parts[i])
    ensures Split(Join(parts)) == parts
  {
    if |parts| == 1 {
      SplitColonFree(parts[0]);
    } else {
      SplitJoin(parts[1..]);
      SplitAtColon(parts[0], Join(parts[1..]));
      assert parts == [parts[0]] + parts[1..];
    }
  }

  /** Joining undoes splitting, for every text. */
  lemma {:induction false} JoinSplit(s: string)
    ensures Join(Split(s)) == s
    ensures forall i :: 0 <= i < |Split(s)| ==> ColonFree(Split(s)[i])
  {
    if s != "" {
      JoinSplit(s[1..]);
      var rest := Split(s[1..]);
      if s[0] == ':' {
        assert Split(s)[1..] == rest;
      } else {
        assert Split(s)[1..] == rest[1..];
      }
    }
  }

  function HexDigit(n: nat): char
    requires n < 16
  {
    if n < 10 then '0' + n as char else 'a' + (n - 10) as char
  }

  /** The value of a hexadecimal digit, 16 for any other character. */
  function HexValue(c: char): (n: nat)
    ensures n <= 16
  {
    if '0' <= c <= '9' then (c - '0') as nat
    else if 'a' <= c <= 'f' then (c - 'a') as nat + 10
    else if 'A' <= c <= 'F' then (c - 'A') as nat + 10
    else 16
  }

  /** `buffer.toString('hex')`. */
  function ToHex(bytes: Bytes): string {
    if bytes == [] then "" else [HexDigit(bytes[0] / 16), HexDigit(bytes[0] % 16)] + ToHex(bytes[1..])
  }

  /** `Buffer.from(text, 'hex')`, which stops at the first pair that is not hexadecimal. */
  function FromHex(text: string): Bytes {
    if |text| < 2 || HexValue(text[0]) == 16 || HexValue(text[1]) == 16 then []
    else [HexValue(text[0]) * 16 + HexValue(text[1])] + FromHex(text[2..])
  }

  lemma {:induction false} FromToHex(bytes: Bytes)
    ensures FromHex(ToHex(bytes)) == bytes
    ensures ColonFree(ToHex(bytes))
  {
    if bytes != [] {
      FromToHex(bytes[1..]);
      assert ToHex(bytes)[2..] == ToHex(bytes[1..]);
    }
  }

  /** Two digits a byte, the high one first, in order and in lower case. */
  lemma {:induction false} HexText(bytes: Bytes, i: nat)
    requires i < |bytes|
    ensures |ToHex(bytes)| == 2 * |bytes|
    ensures ToHex(bytes)[2 * i] == "0123456789abcdef"[bytes[i] / 16]
    ensures ToHex(bytes)[2 * i + 1] == "0123456789abcdef"[bytes[i] % 16]
  {
    HexDigitIs(bytes[0] / 16);
    HexDigitIs(bytes[0] % 16);
    assert ToHex(bytes)[2..] == ToHex(bytes[1..]);
    if i > 0 {
      HexText(bytes[1..], i - 1);
      assert bytes[1..][i - 1] == bytes[i];
      assert ToHex(bytes)[2..][2 * (i - 1)] == ToHex(bytes)[2 * i];
      assert ToHex(bytes)[2..][2 * (i - 1) + 1] == ToHex(bytes)[2 * i + 1];
    } else if |bytes| > 1 {
      HexText(bytes[1..], 0);
    }
  }

  lemma HexDigitIs(n: nat)
    requires n < 16
    ensures HexDigit(n) == "0123456789abcdef"[n]
  {}

  /** What follows the first pair that is not hexadecimal is lost. */
  lemma {:induction false} FromHexStops(bytes: Bytes, rest: string)
    requires |rest| < 2 || !IsHexDigit(rest[0]) || !IsHexDigit(rest[1])
    ensures FromHex(ToHex(bytes) + rest) == bytes
  {
    if bytes == [] {
      assert ToHex(bytes) + rest == rest;
      if |rest| >= 2 {
        NoHexValue(rest[0]);
        NoHexValue(rest[1]);
      }
    } else {
      FromHexStops(bytes[1..], rest);
      FromHexOneMore(bytes[0], ToHex(bytes[1..]) + rest);
      assert ToHex(bytes) + rest == [HexDigit(bytes[0] / 16), HexDigit(bytes[0] % 16)] + (ToHex(bytes[1..]) + rest);
    }
  }

  lemma NoHexValue(c: char)
    ensures HexValue(c) == 16 <==> !IsHexDigit(c)
  {}

  lemma FromHexOneMore(b: Byte, text: string)
    ensures FromHex([HexDigit(b / 16), HexDigit(b % 16)] + text) == [b] + FromHex(text)
  {
    assert ([HexDigit(b / 16), HexDigit(b % 16)] + text)[2..] == text;
  }

  predicate IsHexDigit(c: char) {
    c in "0123456789abcdefABCDEF"
  }
}
