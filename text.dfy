/** The JavaScript string operations that the server and the page rely on
    (`trim`, `split`, `join`, `includes`, `startsWith`, `endsWith`), on
    `string` values, that is, sequences of Unicode scalar values. */
module Text {

  /** The characters `String.prototype.trim` removes: the ECMAScript
      WhiteSpace and LineTerminator characters. */
  predicate IsSpace(c: char) {
    var n := c as int;
    (9 <= n <= 13) || n == 0x20 || n == 0xA0 || n == 0x1680 || (0x2000 <= n <= 0x200A)
    || n == 0x2028 || n == 0x2029 || n == 0x202F || n == 0x205F || n == 0x3000 || n == 0xFEFF
  }

  /** Neither the first nor the last character is white space. */
  predicate IsTrimmed(s: string) {
    s == [] || (!IsSpace(s[0]) && !IsSpace(s[|s| - 1]))
  }

  function TrimStart(s: string): (r: string)
    ensures |r| <= |s| && r == s[|s| - |r|..]
    ensures r != [] ==> !IsSpace(r[0])
  {
    if s != [] && IsSpace(s[0]) then TrimStart(s[1..]) else s
  }

  function TrimEnd(s: string): (r: string)
    ensures |r| <= |s| && r == s[..|r|]
    ensures r != [] ==> !IsSpace(r[|r| - 1])
  {
    if s != [] && IsSpace(s[|s| - 1]) then TrimEnd(s[..|s| - 1]) else s
  }

  /** `String.prototype.trim`: the longest infix without white space at
      either end. */
  function Trim(s: string): (r: string)
    ensures IsTrimmed(r)
    ensures |r| <= |s|
  {
    TrimEnd(TrimStart(s))
  }

  lemma TrimOfTrimmed(s: string)
    requires IsTrimmed(s)
    ensures Trim(s) == s
  {
  }

  lemma TrimIdempotent(s: string)
    ensures Trim(Trim(s)) == Trim(s)
  {
    TrimOfTrimmed(Trim(s));
  }

  /** Removing a white-space character in front changes nothing. */
  lemma TrimSpaceBefore(c: char, s: string)
    requires IsSpace(c)
    ensures Trim([c] + s) == Trim(s)
  {
    assert ([c] + s)[1..] == s;
  }

  lemma {:induction false} TrimStartSnoc(s: string, c: char)
    ensures TrimStart(s + [c]) ==
      if TrimStart(s) == [] then TrimStart([c]) else TrimStart(s) + [c]
  {
    if s == [] {
      assert s + [c] == [c];
    } else {
      var sc := s + [c];
      assert sc[0] == s[0];
      if IsSpace(s[0]) {
        assert sc[1..] == s[1..] + [c];
        TrimStartSnoc(s[1..], c);
      }
    }
  }

  /** Removing a white-space character behind changes nothing. */
  lemma TrimSpaceAfter(s: string, c: char)
    requires IsSpace(c)
    ensures Trim(s + [c]) == Trim(s)
  {
    TrimStartSnoc(s, c);
    var t := TrimStart(s);
    if t != [] {
      assert (t + [c])[..|t|] == t;
    }
  }

  /** The index of the first `c` in `s`, or -1 (`String.prototype.indexOf`). */
  function Find(s: string, c: char): (r: int)
    ensures -1 <= r < |s|
    ensures r == -1 <==> c !in s
    ensures r >= 0 ==> s[r] == c && c !in s[..r]
  {
    if s == [] then -1
    else if s[0] == c then 0
    else
      var k := Find(s[1..], c);
      assert s[1..][..if k < 0 then 0 else k] == s[1..if k < 0 then 1 else k + 1];
      if k == -1 then -1 else k + 1
  }

  lemma {:induction false} FindFirst(a: string, c: char, b: string)
    requires c !in a
    ensures Find(a + [c] + b, c) == |a|
  {
    if a != [] {
      assert a[0] in a;
      assert (a + [c] + b)[1..] == a[1..] + [c] + b;
      FindFirst(a[1..], c, b);
    }
  }

  /** `s.split(c)` for a one-character separator. */
  function Split(s: string, c: char): (parts: seq<string>)
    ensures |parts| >= 1
    ensures forall p :: p in parts ==> c !in p
    decreases |s|
  {
    var i := Find(s, c);
    if i < 0 then [s] else [s[..i]] + Split(s[i + 1..], c)
  }

  /** `parts.join(c)`. */
  function Join(parts: seq<string>, c: char): string {
    if parts == [] then ""
    else if |parts| == 1 then parts[0]
    else parts[0] + [c] + Join(parts[1..], c)
  }

  /** Splitting and joining again gives back the original text: what
      follows the first separator is `Join(Split(s, c)[1..], c)`. */
  lemma {:induction false} JoinSplit(s: string, c: char)
    ensures Join(Split(s, c), c) == s
    decreases |s|
  {
    var i := Find(s, c);
    var parts := Split(s, c);
    if i < 0 {
      assert parts == [s];
    } else {
      var tail := s[i + 1..];
      var rest := Split(tail, c);
      assert parts == [s[..i]] + rest;
      assert |parts| > 1 && parts[1..] == rest;
      assert Join(parts, c) == s[..i] + [c] + Join(rest, c);
      JoinSplit(tail, c);
      assert s == s[..i] + [c] + tail;
    }
  }

  /** Joining pieces that do not contain the separator and splitting again
      gives back the pieces. */
  lemma {:induction false} SplitJoin(parts: seq<string>, c: char)
    requires |parts| >= 1
    requires forall p :: p in parts ==> c !in p
    ensures Split(Join(parts, c), c) == parts
  {
    if |parts| > 1 {
      var tail := Join(parts[1..], c);
      var s := parts[0] + [c] + tail;
      assert parts[0] in parts;
      FindFirst(parts[0], c, tail);
      assert s[..|parts[0]|] == parts[0];
      assert s[|parts[0]| + 1..] == tail;
      assert forall p :: p in parts[1..] ==> p in parts;
      SplitJoin(parts[1..], c);
    } else {
      assert parts[0] in parts;
    }
  }

  lemma JoinSnoc(parts: seq<string>, c: char, last: string)
    requires parts != []
    ensures Join(parts + [last], c) == Join(parts, c) + [c] + last
  {
    if |parts| > 1 {
      assert (parts + [last])[1..] == parts[1..] + [last];
      JoinSnoc(parts[1..], c, last);
    }
  }

  predicate StartsWith(s: string, prefix: string) {
    |prefix| <= |s| && s[..|prefix|] == prefix
  }

  predicate EndsWith(s: string, suffix: string) {
    |suffix| <= |s| && s[|s| - |suffix|..] == suffix
  }

  /** `s.includes(sub)`. */
  predicate Contains(s: string, sub: string)
    decreases |s|
  {
    StartsWith(s, sub) || (s != [] && Contains(s[1..], sub))
  }

  lemma {:induction false} ContainsInfix(a: string, sub: string, b: string)
    ensures Contains(a + sub + b, sub)
  {
    if a != [] {
      assert (a + sub + b)[1..] == a[1..] + sub + b;
      ContainsInfix(a[1..], sub, b);
    } else {
      assert (a + sub + b)[..|sub|] == sub;
    }
  }

  /** The index of the first occurrence of `sep` in `s`, or -1. */
  function FindStr(s: string, sep: string): (r: int)
    ensures -1 <= r
    ensures r >= 0 ==> r + |sep| <= |s|
    ensures r == -1 <==> !Contains(s, sep)
    ensures r >= 0 ==> s[r..r + |sep|] == sep
    ensures r >= 0 ==> forall j :: 0 <= j < r ==> !StartsWith(s[j..], sep)
    decreases |s|
  {
    if StartsWith(s, sep) then 0
    else if s == [] then -1
    else
      var k := FindStr(s[1..], sep);
      if k == -1 then -1
      else
        assert forall j :: 1 <= j < k + 1 ==> s[j..] == s[1..][j - 1..];
        k + 1
  }

  /** `s.split(sep)` for a separator of several characters. */
  function SplitStr(s: string, sep: string): (parts: seq<string>)
    requires sep != []
    ensures |parts| >= 1
    decreases |s|
  {
    var i := FindStr(s, sep);
    if i < 0 then [s] else [s[..i]] + SplitStr(s[i + |sep|..], sep)
  }
}
