/** Decimal numbers, percent-encoding and colon-separated fields, each with its inverse. */
module Text {
  import opened Wrappers

  predicate Free(s: string, c: char) {
    c !in s
  }

  // --- Decimal numbers ---

  function DigitChar(d: nat): char
    requires d < 10
  {
    "0123456789"[d]
  }

  function DigitValue(c: char): Option<nat> {
    if '0' <= c <= '9' then Some(c as int - '0' as int) else None
  }

  function ToDecimal(n: nat): (s: string)
    ensures s != [] && forall c :: c in s ==> '0' <= c <= '9'
  {
    if n < 10 then [DigitChar(n)] else ToDecimal(n / 10) + [DigitChar(n % 10)]
  }

  function FromDecimal(s: string): Option<nat> {
    if s == [] then None
    else
      var last := |s| - 1;
      var digit := DigitValue(s[last]);
      if digit.None? then None
      else if last == 0 then digit
      else
        var front := FromDecimal(s[..last]);
        if front.None? then None else Some(10 * front.value + digit.value)
  }

  lemma {:induction false} DecimalRoundTrip(n: nat)
    ensures FromDecimal(ToDecimal(n)) == Some(n)
  {
    if n < 10 {
    } else {
      DecimalRoundTrip(n / 10);
      assert ToDecimal(n)[..|ToDecimal(n)| - 1] == ToDecimal(n / 10);
    }
  }

  /** The printed form has no zero in front unless it is zero. */
  lemma {:induction false} DecimalWithoutLeadingZero(n: nat)
    ensures n > 0 ==> ToDecimal(n)[0] != '0'
    ensures ToDecimal(0) == "0"
  {
    if n < 10 {
    } else {
      DecimalWithoutLeadingZero(n / 10);
    }
  }

  // --- Percent-encoding of UTF-8, as encodeURIComponent does it (section 2.1 of RFC 3986) ---

  predicate Unreserved(c: char) {
    'A' <= c <= 'Z' || 'a' <= c <= 'z' || '0' <= c <= '9' || c in "-_.!~*'()"
  }

  function HexDigit(d: nat): char
    requires d < 16
  {
    "0123456789ABCDEF"[d]
  }

  function HexValue(c: char): Option<nat> {
    if '0' <= c <= '9' then Some(c as int - '0' as int)
    else if 'A' <= c <= 'F' then Some(c as int - 'A' as int + 10)
    else None
  }

  type Byte = b: int | 0 <= b < 256

  function Escape(b: Byte): string {
    ['%', HexDigit(b / 16), HexDigit(b % 16)]
  }

  /** The UTF-8 bytes of a character. */
  function Utf8(c: char): seq<Byte> {
    var n := c as int;
    if n < 0x80 then [n]
    else
      var m := n / 64;
      if n < 0x800 then [0xC0 + m, 0x80 + n % 64]
      else if n < 0x1_0000 then [0xE0 + m / 64, 0x80 + m % 64, 0x80 + n % 64]
      else [0xF0 + m / 64 / 64, 0x80 + m / 64 % 64, 0x80 + m % 64, 0x80 + n % 64]
  }

  function EscapeAll(bytes: seq<Byte>): string {
    if bytes == [] then "" else Escape(bytes[0]) + EscapeAll(bytes[1..])
  }

  function EncodeChar(c: char): (s: string)
    ensures s != []
  {
    if Unreserved(c) then [c] else EscapeAll(Utf8(c))
  }

  function Encode(s: string): string {
    if s == [] then "" else EncodeChar(s[0]) + Encode(s[1..])
  }

  /** The characters encodeURIComponent leaves alone. */
  predicate Plain(c: char) {
    'A' <= c <= 'Z' || 'a' <= c <= 'z' || '0' <= c <= '9'
    || c == '-' || c == '_' || c == '.' || c == '!' || c == '~' || c == '*' || c == '\'' || c == '(' || c == ')'
  }

  /** A text is encoded character by character. */
  lemma {:induction false} EncodeAppend(s: string, c: char)
    ensures Encode(s + [c]) == Encode(s) + Encode([c])
  {
    if s == [] {
      assert s + [c] == [c];
    } else {
      assert (s + [c])[1..] == s[1..] + [c];
      EncodeAppend(s[1..], c);
    }
  }

  /** Plain characters stand for themselves; all others become escapes, one for each of the 1 to 4 bytes UTF-8 has for them. */
  lemma EncodedExactly(c: char)
    ensures Plain(c) ==> Encode([c]) == [c]
    ensures !Plain(c) ==>
              && |Encode([c])| == 3 * (if c as int < 0x80 then 1 else if c as int < 0x800 then 2 else if c as int < 0x1_0000 then 3 else 4)
              && forall i :: 0 <= i < |Encode([c])| / 3 ==>
                   Encode([c])[3 * i] == '%' && UpperHex(Encode([c])[3 * i + 1]) && UpperHex(Encode([c])[3 * i + 2])
  {
    assert [c][1..] == [];
    assert Encode([c]) == EncodeChar(c);
    if !Plain(c) { EscapesAre(Utf8(c)); }
  }

  predicate UpperHex(c: char) {
    '0' <= c <= '9' || 'A' <= c <= 'F'
  }

  lemma {:induction false} EscapesAre(bytes: seq<Byte>)
    ensures |EscapeAll(bytes)| == 3 * |bytes|
    ensures forall i :: 0 <= i < |bytes| ==>
              && EscapeAll(bytes)[3 * i] == '%'
              && UpperHex(EscapeAll(bytes)[3 * i + 1]) && UpperHex(EscapeAll(bytes)[3 * i + 2])
  {
    if bytes == [] {
    } else {
      EscapesAre(bytes[1..]);
      forall i | 0 <= i < |bytes|
        ensures EscapeAll(bytes)[3 * i] == '%' && UpperHex(EscapeAll(bytes)[3 * i + 1]) && UpperHex(EscapeAll(bytes)[3 * i + 2])
      {
        if i > 0 {
          assert EscapeAll(bytes)[3 * i] == EscapeAll(bytes[1..])[3 * (i - 1)];
          assert EscapeAll(bytes)[3 * i + 1] == EscapeAll(bytes[1..])[3 * (i - 1) + 1];
          assert EscapeAll(bytes)[3 * i + 2] == EscapeAll(bytes[1..])[3 * (i - 1) + 2];
        }
      }
    }
  }

  /** The byte escaped at the front of `s`. */
  function Unescape(s: string): Option<Byte> {
    if |s| < 3 || s[0] != '%' || HexValue(s[1]).None? || HexValue(s[2]).None? then None
    else Some(16 * HexValue(s[1]).value + HexValue(s[2]).value)
  }

  /** How many bytes the character beginning with byte `b` takes. */
  function Width(b: Byte): nat {
    if b < 0x80 then 1 else if b < 0xE0 then 2 else if b < 0xF0 then 3 else 4
  }

  function Unescapes(s: string, n: nat): Option<seq<Byte>> {
    if n == 0 then Some([])
    else
      var first := Unescape(s);
      if first.None? then None
      else
        var rest := Unescapes(s[3..], n - 1);
        if rest.None? then None else Some([first.value] + rest.value)
  }

  function ToChar(n: int): Option<char> {
    if 0 <= n < 0xD800 || 0xE000 <= n < 0x11_0000 then Some(n as char) else None
  }

  function FromUtf8(bytes: seq<Byte>): Option<char> {
    if |bytes| == 1 then ToChar(bytes[0])
    else if |bytes| == 2 then
      var b: int := bytes[0];
      ToChar(64 * (b - 0xC0) + bytes[1] - 0x80)
    else if |bytes| == 3 then
      var b: int, b': int := bytes[0], bytes[1];
      ToChar(64 * (64 * (b - 0xE0) + b' - 0x80) + bytes[2] - 0x80)
    else if |bytes| == 4 then
      var b: int, b': int, b'': int := bytes[0], bytes[1], bytes[2];
      ToChar(64 * (64 * (64 * (b - 0xF0) + b' - 0x80) + b'' - 0x80) + bytes[3] - 0x80)
    else None
  }

  lemma Utf8RoundTrip(c: char)
    ensures FromUtf8(Utf8(c)) == Some(c) && |Utf8(c)| == Width(Utf8(c)[0])
  {
    var n := c as int;
    assert n == 64 * (n / 64) + n % 64;
    if n < 0x80 {
    } else if n < 0x800 {
    } else {
      var m := n / 64;
      assert m == 64 * (m / 64) + m % 64;
      if n >= 0x1_0000 {
        assert m / 64 == 64 * (m / 64 / 64) + m / 64 % 64;
      }
    }
  }

  /** The first character of an encoded text, and what follows it. */
  function DecodeChar(s: string): Option<(char, string)> {
    if s == [] then None
    else if s[0] != '%' then Some((s[0], s[1..]))
    else
      var first := Unescape(s);
      if first.None? then None
      else
        var bytes := Unescapes(s, Width(first.value));
        if bytes.None? || |s| < 3 * Width(first.value) || FromUtf8(bytes.value).None? then None
        else Some((FromUtf8(bytes.value).value, s[3 * Width(first.value)..]))
  }

  function Decode(s: string): Option<string>
    decreases |s|
  {
    if s == [] then Some("")
    else
      var first := DecodeChar(s);
      if first.None? || |first.value.1| >= |s| then None
      else
        var rest := Decode(first.value.1);
        if rest.None? then None else Some([first.value.0] + rest.value)
  }

  lemma UnescapeEscape(b: Byte, rest: string)
    ensures Unescape(Escape(b) + rest) == Some(b) && (Escape(b) + rest)[3..] == rest
  {
    var s := Escape(b) + rest;
    assert s[0] == '%' && s[1] == HexDigit(b / 16) && s[2] == HexDigit(b % 16);
    HexRoundTrip(b / 16);
    HexRoundTrip(b % 16);
  }

  lemma HexRoundTrip(d: nat)
    requires d < 16
    ensures HexValue(HexDigit(d)) == Some(d)
  {
  }

  lemma {:induction false} UnescapesAll(bytes: seq<Byte>, rest: string)
    ensures Unescapes(EscapeAll(bytes) + rest, |bytes|) == Some(bytes)
    ensures |EscapeAll(bytes)| == 3 * |bytes|
  {
    if bytes == [] {
    } else {
      var tail := EscapeAll(bytes[1..]) + rest;
      assert EscapeAll(bytes) + rest == Escape(bytes[0]) + tail;
      UnescapeEscape(bytes[0], tail);
      UnescapesAll(bytes[1..], rest);
      assert bytes == [bytes[0]] + bytes[1..];
    }
  }

  lemma EscapedFront(bytes: seq<Byte>, rest: string)
    requires bytes != []
    ensures var s := EscapeAll(bytes) + rest;
            |s| >= 3 && s[0] == '%' && Unescape(s) == Some(bytes[0])
  {
    var tail := EscapeAll(bytes[1..]) + rest;
    assert EscapeAll(bytes) + rest == Escape(bytes[0]) + tail;
    UnescapeEscape(bytes[0], tail);
  }

  lemma DecodeBytes(bytes: seq<Byte>, c: char, rest: string)
    requires bytes != [] && |bytes| == Width(bytes[0]) && FromUtf8(bytes) == Some(c)
    ensures DecodeChar(EscapeAll(bytes) + rest) == Some((c, rest))
  {
    EscapedFront(bytes, rest);
    UnescapesAll(bytes, rest);
    assert (EscapeAll(bytes) + rest)[3 * |bytes|..] == rest;
  }

  lemma DecodeEncodeChar(c: char, rest: string)
    ensures DecodeChar(EncodeChar(c) + rest) == Some((c, rest))
  {
    if Unreserved(c) {
      assert ([c] + rest)[1..] == rest;
    } else {
      Utf8RoundTrip(c);
      DecodeBytes(Utf8(c), c, rest);
    }
  }

  /** Every text is recovered from its encoding. */
  lemma {:induction false} EncodeRoundTrip(s: string)
    ensures Decode(Encode(s)) == Some(s)
  {
    if s == [] {
    } else {
      EncodeRoundTrip(s[1..]);
      DecodeEncodeChar(s[0], Encode(s[1..]));
      assert s == [s[0]] + s[1..];
    }
  }

  lemma {:induction false} EscapesWithoutColon(bytes: seq<Byte>)
    ensures Free(EscapeAll(bytes), ':')
  {
    if bytes == [] {
    } else {
      EscapesWithoutColon(bytes[1..]);
      assert HexDigit(bytes[0] / 16) != ':' && HexDigit(bytes[0] % 16) != ':';
    }
  }

  lemma {:induction false} EncodedWithoutColon(s: string)
    ensures Free(Encode(s), ':')
  {
    if s == [] {
    } else {
      EncodedWithoutColon(s[1..]);
      EscapesWithoutColon(Utf8(s[0]));
    }
  }

  // --- Colon-separated fields ---

  function Join(parts: seq<string>): string {
    if parts == [] then ""
    else if |parts| == 1 then parts[0]
    else parts[0] + ":" + Join(parts[1..])
  }

  function Split(s: string): (parts: seq<string>)
    ensures parts != []
  {
    if s == [] then [""]
    else
      var rest := Split(s[1..]);
      if s[0] == ':' then [""] + rest else [[s[0]] + rest[0]] + rest[1..]
  }

  lemma {:induction false} SplitField(field: string, rest: string)
    requires Free(field, ':')
    ensures Split(field) == [field]
    ensures Split(field + ":" + rest) == [field] + Split(rest)
  {
    if field == [] {
      assert field + ":" + rest == [':'] + rest;
      assert ([':'] + rest)[1..] == rest;
    } else {
      SplitField(field[1..], rest);
      var s := field + ":" + rest;
      assert s[1..] == field[1..] + ":" + rest;
      assert field == [field[0]] + field[1..];
      assert field[0] in field;
    }
  }

  predicate ColonFree(parts: seq<string>) {
    forall i :: 0 <= i < |parts| ==> Free(parts[i], ':')
  }

  lemma {:induction false} SplitJoin(parts: seq<string>)
    requires parts != [] && ColonFree(parts)
    ensures Split(Join(parts)) == parts
  {
    if |parts| == 1 {
      SplitField(parts[0], "");
    } else {
      SplitJoin(parts[1..]);
      SplitField(parts[0], Join(parts[1..]));
    }
  }

  /** A field that itself holds colons joins like the fields it is made of. */
  /** A field more is a colon and the field. */
  lemma {:induction false} JoinSnoc(parts: seq<string>, last: string)
    requires parts != []
    ensures Join(parts + [last]) == Join(parts) + ":" + last
  {
    if |parts| == 1 {
      assert (parts + [last])[1..] == [last];
    } else {
      assert (parts + [last])[1..] == parts[1..] + [last];
      JoinSnoc(parts[1..], last);
    }
  }

  lemma JoinHead(first: string, second: string, rest: seq<string>)
    ensures Join([first + ":" + second] + rest) == Join([first, second] + rest)
  {
    assert ([first, second] + rest)[1..] == [second] + rest;
    if rest == [] {
      assert [first + ":" + second] + rest == [first + ":" + second];
      assert [second] + rest == [second];
    } else {
      assert ([first + ":" + second] + rest)[1..] == rest;
      assert ([second] + rest)[1..] == rest;
      assert (first + ":" + second) + ":" + Join(rest) == first + ":" + (second + ":" + Join(rest));
    }
  }

  // --- Optional tagged fields in a fixed order ---

  function Tagged(tags: seq<string>, values: seq<Option<string>>): seq<string>
    requires |tags| == |values|
  {
    if tags == [] then []
    else (if values[0].Some? then [tags[0] + "=" + values[0].value] else []) + Tagged(tags[1..], values[1..])
  }

  function Untag(tags: seq<string>, fields: seq<string>): seq<Option<string>> {
    if tags == [] then []
    else
      var head := tags[0] + "=";
      if fields != [] && head <= fields[0] then [Some(fields[0][|head|..])] + Untag(tags[1..], fields[1..])
      else [None] + Untag(tags[1..], fields)
  }

  /** Tags that are told apart by what stands before the equals sign. */
  predicate GoodTags(tags: seq<string>) {
    && (forall i :: 0 <= i < |tags| ==> Free(tags[i], '='))
    && (forall i, j :: 0 <= i < j < |tags| ==> tags[i] != tags[j])
  }

  /** What stands before the first equals sign. */
  function Name(s: string): string {
    if s == [] || s[0] == '=' then "" else [s[0]] + Name(s[1..])
  }

  lemma {:induction false} NameOfTagged(tag: string, value: string)
    requires Free(tag, '=')
    ensures Name(tag + "=" + value) == tag
  {
    if tag == [] {
    } else {
      NameOfTagged(tag[1..], value);
      var c := tag[0];
      assert c in tag;
      assert tag + "=" + value == [c] + (tag[1..] + "=" + value);
    }
  }

  lemma TagsApart(tag: string, other: string, value: string)
    requires Free(tag, '=') && Free(other, '=')
    ensures tag + "=" <= other + "=" + value ==> tag == other
  {
    var s := other + "=" + value;
    NameOfTagged(other, value);
    if tag + "=" <= s {
      assert s == tag + "=" + s[|tag| + 1..];
      NameOfTagged(tag, s[|tag| + 1..]);
    }
  }

  /** The first field present, if any, carries one of the tags. */
  lemma {:induction false} FirstTagged(tags: seq<string>, values: seq<Option<string>>)
    requires |tags| == |values|
    ensures Tagged(tags, values) != [] ==>
              exists i, v :: 0 <= i < |tags| && Tagged(tags, values)[0] == tags[i] + "=" + v
  {
    if tags == [] {
    } else {
      if values[0].Some? {
        assert Tagged(tags, values)[0] == tags[0] + "=" + values[0].value;
      } else {
        FirstTagged(tags[1..], values[1..]);
        assert Tagged(tags, values) == Tagged(tags[1..], values[1..]);
        if Tagged(tags, values) != [] {
          var i, v :| 0 <= i < |tags| - 1 && Tagged(tags, values)[0] == tags[1..][i] + "=" + v;
          assert tags[1..][i] == tags[i + 1];
        }
      }
    }
  }

  lemma {:induction false} UntagTagged(tags: seq<string>, values: seq<Option<string>>)
    requires |tags| == |values| && GoodTags(tags)
    ensures Untag(tags, Tagged(tags, values)) == values
  {
    if tags == [] {
    } else {
      var rest := Tagged(tags[1..], values[1..]);
      UntagTagged(tags[1..], values[1..]);
      var fields := Tagged(tags, values);
      if values[0].Some? {
        assert fields == [tags[0] + "=" + values[0].value] + rest && fields[1..] == rest;
        assert fields[0][|tags[0] + "="|..] == values[0].value;
      } else {
        assert fields == rest;
        if fields != [] {
          FirstTagged(tags[1..], values[1..]);
          var i, v :| 0 <= i < |tags| - 1 && fields[0] == tags[1..][i] + "=" + v;
          TagsApart(tags[0], tags[i + 1], v);
        }
      }
    }
  }
}
