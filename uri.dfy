/** `encodeURIComponent` and `decodeURIComponent` as the ECMAScript
    standard defines them (section 19.2.6 of ECMA-262): every character but
    the unreserved ones becomes the `%XX` escapes of its UTF-8 bytes, with
    upper-case hexadecimal digits. A Dafny `char` is a Unicode scalar value,
    so the lone surrogates that make the encoder throw do not arise. */
module Uri {
  import opened Wrappers

  /** The characters `encodeURIComponent` leaves as they are: letters,
      digits and `- _ . ! ~ * ' ( )`. */
  predicate Unreserved(c: char) {
    ('A' <= c <= 'Z') || ('a' <= c <= 'z') || ('0' <= c <= '9')
    || c == '-' || c == '_' || c == '.' || c == '!' || c == '~' || c == '*' || c == '\'' || c == '(' || c == ')'
  }

  /** The upper-case hexadecimal digit of `n`. */
  function Hex(n: int): (c: char)
    requires 0 <= n < 16
    ensures ('0' <= c <= '9') || ('A' <= c <= 'F')
  {
    if n < 10 then ('0' as int + n) as char else ('A' as int + n - 10) as char
  }

  /** The value of a hexadecimal digit of either case, or `None`. */
  function HexValue(c: char): (v: Option<int>)
    ensures v.Some? ==> 0 <= v.value < 16
  {
    if '0' <= c <= '9' then Some(c as int - '0' as int)
    else if 'A' <= c <= 'F' then Some(c as int - 'A' as int + 10)
    else if 'a' <= c <= 'f' then Some(c as int - 'a' as int + 10)
    else None
  }

  lemma HexValueHex(n: int)
    requires 0 <= n < 16
    ensures HexValue(Hex(n)) == Some(n)
  {
  }

  /** The UTF-8 encoding of a scalar value. */
  function Utf8(c: char): (bytes: seq<int>)
    ensures 1 <= |bytes| <= 4
    ensures forall i :: 0 <= i < |bytes| ==> 0 <= bytes[i] < 256
  {
    var n := c as int;
    if n < 0x80 then [n]
    else if n < 0x800 then [0xC0 + n / 64, 0x80 + n % 64]
    else if n < 0x1_0000 then [0xE0 + n / 4096, 0x80 + (n / 64) % 64, 0x80 + n % 64]
    else [0xF0 + n / 262144, 0x80 + (n / 4096) % 64, 0x80 + (n / 64) % 64, 0x80 + n % 64]
  }

  /** `%XX` for one byte. */
  function Escape(b: int): string
    requires 0 <= b < 256
  {
    ['%', Hex(b / 16), Hex(b % 16)]
  }

  function Escapes(bytes: seq<int>): (e: string)
    requires forall i :: 0 <= i < |bytes| ==> 0 <= bytes[i] < 256
    ensures |e| == 3 * |bytes|
  {
    if bytes == [] then [] else Escape(bytes[0]) + Escapes(bytes[1..])
  }

  function EncodeChar(c: char): string {
    if Unreserved(c) then [c] else Escapes(Utf8(c))
  }

  /** `encodeURIComponent`. */
  function Encode(s: string): string {
    if s == [] then [] else EncodeChar(s[0]) + Encode(s[1..])
  }

  // ---------------------------------------------------------------------
  // Decoding

  /** The byte written as `%XX` at position `k` of `e`, if any. */
  function EscapedByte(e: string, k: nat): (b: Option<int>)
    ensures b.Some? ==> 0 <= b.value < 256
  {
    if k + 3 <= |e| && e[k] == '%' && HexValue(e[k + 1]).Some? && HexValue(e[k + 2]).Some? then
      Some(HexValue(e[k + 1]).value * 16 + HexValue(e[k + 2]).value)
    else None
  }

  /** The `n` bytes escaped one after the other from position `k` on. */
  function EscapedBytes(e: string, k: nat, n: nat): (bytes: Option<seq<int>>)
    ensures bytes.Some? ==> |bytes.value| == n && k + 3 * n <= |e|
    ensures bytes.Some? ==> forall i :: 0 <= i < n ==> 0 <= bytes.value[i] < 256
    decreases n
  {
    if n == 0 then (if k <= |e| then Some([]) else None)
    else
      match EscapedByte(e, k)
      case None => None
      case Some(b) =>
        match EscapedBytes(e, k + 3, n - 1)
        case None => None
        case Some(rest) => Some([b] + rest)
  }

  /** How many bytes a UTF-8 sequence with this first byte has, if it can
      start one. */
  function SequenceLength(b: int): Option<nat> {
    if 0 <= b < 0x80 then Some(1)
    else if 0xC0 <= b < 0xE0 then Some(2)
    else if 0xE0 <= b < 0xF0 then Some(3)
    else if 0xF0 <= b < 0xF8 then Some(4)
    else None
  }

  predicate Continuation(b: int) {
    0x80 <= b < 0xC0
  }

  /** The scalar value a well-formed UTF-8 sequence stands for: the
      continuation bytes are right, the value is not written with more
      bytes than it needs, and it is not a surrogate or past `U+10FFFF`. */
  function Scalar(bytes: seq<int>): Option<char> {
    if |bytes| == 1 then
      (if 0 <= bytes[0] < 0x80 then Some(bytes[0] as char) else None)
    else if |bytes| == 2 then
      var n := (bytes[0] - 0xC0) * 64 + (bytes[1] - 0x80);
      if 0xC0 <= bytes[0] < 0xE0 && Continuation(bytes[1]) && 0x80 <= n then Some(n as char) else None
    else if |bytes| == 3 then
      var n := (bytes[0] - 0xE0) * 4096 + (bytes[1] - 0x80) * 64 + (bytes[2] - 0x80);
      if 0xE0 <= bytes[0] < 0xF0 && Continuation(bytes[1]) && Continuation(bytes[2])
         && 0x800 <= n && !(0xD800 <= n < 0xE000)
      then Some(n as char) else None
    else if |bytes| == 4 then
      var n := (bytes[0] - 0xF0) * 262144 + (bytes[1] - 0x80) * 4096 + (bytes[2] - 0x80) * 64 + (bytes[3] - 0x80);
      if 0xF0 <= bytes[0] < 0xF8 && Continuation(bytes[1]) && Continuation(bytes[2]) && Continuation(bytes[3])
         && 0x1_0000 <= n < 0x11_0000
      then Some(n as char) else None
    else None
  }

  /** `decodeURIComponent`: `None` where it throws a `URIError`. */
  function Decode(e: string): Option<string>
    decreases |e|
  {
    if e == [] then Some([])
    else if e[0] != '%' then Prepend(e[0], Decode(e[1..]))
    else
      match EscapedByte(e, 0)
      case None => None
      case Some(lead) =>
        match SequenceLength(lead)
        case None => None
        case Some(n) =>
          match EscapedBytes(e, 0, n)
          case None => None
          case Some(bytes) =>
            match Scalar(bytes)
            case None => None
            case Some(c) => Prepend(c, Decode(e[3 * n..]))
  }

  function Prepend(c: char, rest: Option<string>): Option<string> {
    if rest.None? then None else Some([c] + rest.value)
  }

  // ---------------------------------------------------------------------
  // Decoding undoes encoding

  lemma Utf8Scalar(c: char)
    ensures Scalar(Utf8(c)) == Some(c)
    ensures SequenceLength(Utf8(c)[0]) == Some(|Utf8(c)|)
  {
    var n := c as int;
    if n < 0x80 {
    } else if n < 0x800 {
      TwoBytes(c);
    } else if n < 0x1_0000 {
      ThreeBytes(c);
    } else {
      FourBytes(c);
    }
  }

  lemma TwoBytes(c: char)
    requires 0x80 <= c as int < 0x800
    ensures Scalar(Utf8(c)) == Some(c)
    ensures SequenceLength(Utf8(c)[0]) == Some(2)
  {
    var n := c as int;
    var b := Utf8(c);
    assert b == [0xC0 + n / 64, 0x80 + n % 64];
    assert (b[0] - 0xC0) * 64 + (b[1] - 0x80) == n;
  }

  lemma ThreeBytes(c: char)
    requires 0x800 <= c as int < 0x1_0000
    ensures Scalar(Utf8(c)) == Some(c)
    ensures SequenceLength(Utf8(c)[0]) == Some(3)
  {
    var n := c as int;
    var b := Utf8(c);
    var q := n / 64;
    assert n == q * 64 + n % 64;
    assert q == (q / 64) * 64 + q % 64;
    assert n / 4096 == q / 64;
    assert b == [0xE0 + q / 64, 0x80 + q % 64, 0x80 + n % 64];
    assert (b[0] - 0xE0) * 4096 + (b[1] - 0x80) * 64 + (b[2] - 0x80) == n;
  }

  lemma FourBytes(c: char)
    requires 0x1_0000 <= c as int
    ensures Scalar(Utf8(c)) == Some(c)
    ensures SequenceLength(Utf8(c)[0]) == Some(4)
  {
    var n := c as int;
    assert n < 0x11_0000;
    var b := Utf8(c);
    var q := n / 64;
    var p := q / 64;
    assert n == q * 64 + n % 64;
    assert q == p * 64 + q % 64;
    assert p == (p / 64) * 64 + p % 64;
    assert n / 4096 == p;
    assert n / 262144 == p / 64;
    assert b == [0xF0 + p / 64, 0x80 + p % 64, 0x80 + q % 64, 0x80 + n % 64];
    assert (b[0] - 0xF0) * 262144 + (b[1] - 0x80) * 4096 + (b[2] - 0x80) * 64 + (b[3] - 0x80) == n;
  }

  lemma EscapeByte(b: int, rest: string)
    requires 0 <= b < 256
    ensures EscapedByte(Escape(b) + rest, 0) == Some(b)
  {
    HexValueHex(b / 16);
    HexValueHex(b % 16);
  }

  lemma {:induction false} EscapesRead(bytes: seq<int>, rest: string)
    requires forall i :: 0 <= i < |bytes| ==> 0 <= bytes[i] < 256
    ensures EscapedBytes(Escapes(bytes) + rest, 0, |bytes|) == Some(bytes)
  {
    if bytes != [] {
      var tail := Escapes(bytes[1..]) + rest;
      EscapesCons(bytes, rest);
      EscapesRead(bytes[1..], rest);
      ReadOneMore(bytes[0], tail, bytes[1..]);
      assert [bytes[0]] + bytes[1..] == bytes;
    }
  }

  lemma {:induction false} EscapesCons(bytes: seq<int>, rest: string)
    requires bytes != []
    requires forall i :: 0 <= i < |bytes| ==> 0 <= bytes[i] < 256
    ensures Escapes(bytes) + rest == Escape(bytes[0]) + (Escapes(bytes[1..]) + rest)
  {
    var head := Escape(bytes[0]);
    var tail := Escapes(bytes[1..]);
    assert Escapes(bytes) == head + tail;
    assert (head + tail) + rest == head + (tail + rest);
  }

  /** One more escaped byte in front of escaped bytes is read first. */
  lemma ReadOneMore(b: int, tail: string, bytes: seq<int>)
    requires 0 <= b < 256
    requires EscapedBytes(tail, 0, |bytes|) == Some(bytes)
    ensures EscapedBytes(Escape(b) + tail, 0, |bytes| + 1) == Some([b] + bytes)
  {
    EscapeByte(b, tail);
    EscapedBytesShift(Escape(b), tail, |bytes|);
    EscapedBytesCons(Escape(b) + tail, |bytes| + 1, b, bytes);
  }


  lemma EscapedBytesCons(e: string, n: nat, b: int, rest: seq<int>)
    requires n > 0
    requires EscapedByte(e, 0) == Some(b) && EscapedBytes(e, 3, n - 1) == Some(rest)
    ensures EscapedBytes(e, 0, n) == Some([b] + rest)
  {
  }

  /** Reading escaped bytes after a three-character prefix is reading them
      from the start of what follows it. */
  lemma {:induction false} EscapedBytesShift(prefix: string, e: string, n: nat)
    requires |prefix| == 3
    ensures EscapedBytes(prefix + e, 3, n) == EscapedBytes(e, 0, n)
  {
    ShiftFrom(prefix, e, 0, n);
  }

  lemma {:induction false} ShiftFrom(prefix: string, e: string, k: nat, n: nat)
    requires |prefix| == 3
    ensures EscapedBytes(prefix + e, k + 3, n) == EscapedBytes(e, k, n)
    decreases n
  {
    var whole := prefix + e;
    if k + 3 <= |e| {
      assert whole[k + 3] == e[k] && whole[k + 4] == e[k + 1] && whole[k + 5] == e[k + 2];
    }
    assert EscapedByte(whole, k + 3) == EscapedByte(e, k);
    if n > 0 {
      ShiftFrom(prefix, e, k + 3, n - 1);
    }
  }

  /** Decoding one encoded character followed by anything decodes the
      character and then the rest. */
  lemma DecodeCharStep(c: char, rest: string)
    ensures Decode(EncodeChar(c) + rest) == Prepend(c, Decode(rest))
  {
    var e := EncodeChar(c) + rest;
    if Unreserved(c) {
      assert e[0] == c && e[1..] == rest;
    } else {
      var bytes := Utf8(c);
      var tail := Escapes(bytes[1..]) + rest;
      assert e == Escape(bytes[0]) + tail;
      EscapeByte(bytes[0], tail);
      EscapesRead(bytes, rest);
      Utf8Scalar(c);
      assert e[3 * |bytes|..] == rest;
      DecodeSequence(e, |bytes|, bytes, c);
    }
  }

  /** One step of the decoder over an escaped UTF-8 sequence. */
  lemma DecodeSequence(e: string, n: nat, bytes: seq<int>, c: char)
    requires e != [] && e[0] == '%'
    requires EscapedByte(e, 0).Some? && SequenceLength(EscapedByte(e, 0).value) == Some(n)
    requires EscapedBytes(e, 0, n) == Some(bytes)
    requires Scalar(bytes) == Some(c)
    ensures Decode(e) == Prepend(c, Decode(e[3 * n..]))
  {
  }

  /** `decodeURIComponent(encodeURIComponent(s)) === s`. */
  lemma {:induction false} DecodeEncode(s: string)
    ensures Decode(Encode(s)) == Some(s)
  {
    if s != [] {
      DecodeCharStep(s[0], Encode(s[1..]));
      DecodeEncode(s[1..]);
      assert [s[0]] + s[1..] == s;
    }
  }

  /** What `encodeURIComponent` writes: unreserved characters, `%` and
      hexadecimal digits only. */
  predicate UriSafe(c: char) {
    Unreserved(c) || c == '%'
  }

  lemma {:induction false} EscapesSafe(bytes: seq<int>)
    requires forall i :: 0 <= i < |bytes| ==> 0 <= bytes[i] < 256
    ensures forall i :: 0 <= i < |Escapes(bytes)| ==> UriSafe(Escapes(bytes)[i])
  {
    if bytes != [] {
      EscapesSafe(bytes[1..]);
    }
  }

  lemma {:induction false} EncodeSafe(s: string)
    ensures forall i :: 0 <= i < |Encode(s)| ==> UriSafe(Encode(s)[i])
  {
    if s != [] {
      if !Unreserved(s[0]) {
        EscapesSafe(Utf8(s[0]));
      }
      EncodeSafe(s[1..]);
    }
  }

  /** Text made of unreserved characters only is left as it is. */
  lemma {:induction false} EncodeUnreserved(s: string)
    requires forall i :: 0 <= i < |s| ==> Unreserved(s[i])
    ensures Encode(s) == s
  {
    if s != [] {
      EncodeUnreserved(s[1..]);
      assert [s[0]] + s[1..] == s;
    }
  }
}
