/**
 * `encodeURIComponent` and its inverse `decodeURIComponent` (section 19.2.6
 * of ECMA-262), and the per-segment path encoding the indexer builds links
 * with: split on `/`, encode each segment on its own, join with `/`.
 *
 * A character outside the unreserved set is written as its UTF-8 bytes, each
 * as `%` followed by two upper-case hexadecimal digits.
 */
module UriComponent {
  import opened Wrappers
  import Text

  type Byte = b: int | 0 <= b < 256
  type Nibble = d: int | 0 <= d < 16

  /** The characters `encodeURIComponent` leaves as they are. */
  predicate IsUnreserved(c: char) {
    || ('A' <= c <= 'Z') || ('a' <= c <= 'z') || ('0' <= c <= '9')
    || c == '-' || c == '_' || c == '.' || c == '!' || c == '~'
    || c == '*' || c == '\'' || c == '(' || c == ')'
  }

  /** The alphabet of an encoded component. */
  predicate IsEncodedChar(c: char) {
    IsUnreserved(c) || c == '%'
  }

  /** The UTF-8 encoding of one Unicode scalar value. */
  function Utf8(c: char): (bs: seq<Byte>)
    ensures 1 <= |bs| <= 4
    ensures |bs| == 1 <==> c as int < 0x80
  {
    var cp := c as int;
    if cp < 0x80 then [cp]
    else if cp < 0x800 then [0xC0 + cp / 64, 0x80 + cp % 64]
    else if cp < 0x10000 then [0xE0 + cp / 4096, 0x80 + (cp / 64) % 64, 0x80 + cp % 64]
    else [0xF0 + cp / 0x40000, 0x80 + (cp / 4096) % 64, 0x80 + (cp / 64) % 64, 0x80 + cp % 64]
  }

  /** Upper-case hexadecimal digit. */
  function HexDigit(d: Nibble): (c: char)
    ensures IsUnreserved(c)
  {
    if d < 10 then ('0' as int + d) as char else ('A' as int + d - 10) as char
  }

  /** Value of a hexadecimal digit of either case. */
  function HexValue(c: char): Option<Nibble> {
    if '0' <= c <= '9' then Some(c as int - '0' as int)
    else if 'A' <= c <= 'F' then Some(c as int - 'A' as int + 10)
    else if 'a' <= c <= 'f' then Some(c as int - 'a' as int + 10)
    else None
  }

  function PercentByte(b: Byte): string {
    ['%', HexDigit(b / 16), HexDigit(b % 16)]
  }

  function PercentBytes(bs: seq<Byte>): (r: string)
    ensures |r| == 3 * |bs|
    ensures forall i :: 0 <= i < |r| ==> IsEncodedChar(r[i])
  {
    if |bs| == 0 then "" else PercentByte(bs[0]) + PercentBytes(bs[1..])
  }

  function EncodeChar(c: char): (r: string)
    ensures |r| >= 1
    ensures forall i :: 0 <= i < |r| ==> IsEncodedChar(r[i])
  {
    if IsUnreserved(c) then [c] else PercentBytes(Utf8(c))
  }

  /** `encodeURIComponent`: the result uses only unreserved characters and `%`, so never `/`. */
  function Encode(s: string): (r: string)
    ensures |r| >= |s|
    ensures forall i :: 0 <= i < |r| ==> IsEncodedChar(r[i])
  {
    if |s| == 0 then "" else EncodeChar(s[0]) + Encode(s[1..])
  }

  /** The byte written as `%XY` at position `i`, if that is what is there. */
  function ByteAt(s: string, i: nat): (r: Option<Byte>)
    ensures r.Some? ==> i + 3 <= |s| && s[i] == '%'
  {
    if i + 3 <= |s| && s[i] == '%' then
      match (HexValue(s[i + 1]), HexValue(s[i + 2]))
      case (Some(h), Some(l)) => var b: Byte := 16 * (h as int) + (l as int); Some(b)
      case _ => None
    else None
  }

  /** The six payload bits of a UTF-8 continuation byte at position `i`. */
  function ContinuationAt(s: string, i: nat): (r: Option<int>)
    ensures r.Some? ==> i + 3 <= |s| && 0 <= r.value < 64
  {
    match ByteAt(s, i)
    case Some(b) => if 0x80 <= b < 0xC0 then Some(b - 0x80) else None
    case None => None
  }

  /**
   * Decodes the first character of `s`: a literal character, or one to four
   * `%XY` escapes forming a well-formed UTF-8 sequence (no overlong form, no
   * surrogate, nothing above U+10FFFF). Returns the character and the number
   * of characters of `s` it took.
   */
  function DecodeOne(s: string): (r: Option<(char, nat)>)
    requires |s| > 0
    ensures r.Some? ==> 1 <= r.value.1 <= |s|
  {
    if s[0] != '%' then Some((s[0], 1))
    else match ByteAt(s, 0)
      case None => None
      case Some(b0) =>
        if b0 < 0x80 then Some((b0 as char, 3))
        else if b0 < 0xC0 then None
        else if b0 < 0xE0 then
          match ContinuationAt(s, 3)
          case None => None
          case Some(c1) =>
            var cp := (b0 - 0xC0) * 64 + c1;
            if cp < 0x80 then None else Some((cp as char, 6))
        else if b0 < 0xF0 then
          match (ContinuationAt(s, 3), ContinuationAt(s, 6))
          case (Some(c1), Some(c2)) =>
            var cp := (b0 - 0xE0) * 4096 + c1 * 64 + c2;
            if cp < 0x800 || (0xD800 <= cp < 0xE000) then None else Some((cp as char, 9))
          case _ => None
        else if b0 < 0xF8 then
          match (ContinuationAt(s, 3), ContinuationAt(s, 6), ContinuationAt(s, 9))
          case (Some(c1), Some(c2), Some(c3)) =>
            var cp := (b0 - 0xF0) * 0x40000 + c1 * 4096 + c2 * 64 + c3;
            if cp < 0x10000 || cp >= 0x110000 then None else Some((cp as char, 12))
          case _ => None
        else None
  }

  /** `decodeURIComponent`: `None` where it would throw a `URIError`. */
  function Decode(s: string): Option<string>
    decreases |s|
  {
    if |s| == 0 then Some("")
    else match DecodeOne(s)
      case None => None
      case Some((c, n)) =>
        match Decode(s[n..])
        case None => None
        case Some(t) => Some([c] + t)
  }

  /** Puts `a` in front of a successful decoding. */
  function Prepend(a: string, r: Option<string>): Option<string> {
    match r
    case None => None
    case Some(t) => Some(a + t)
  }

  lemma ByteAtOffset(x: string, y: string)
    ensures ByteAt(x + y, |x|) == ByteAt(y, 0)
  {
    if |y| >= 3 {
      assert (x + y)[|x|..|x| + 3] == y[..3];
    }
  }

  lemma PercentByteRoundTrip(b: Byte, rest: string)
    ensures ByteAt(PercentByte(b) + rest, 0) == Some(b)
  {
    var s := PercentByte(b) + rest;
    assert s[1] == HexDigit(b / 16) && s[2] == HexDigit(b % 16);
  }

  /** The `k`-th escape of an escaped byte string reads back as the `k`-th byte. */
  lemma {:induction false} PercentBytesAt(bs: seq<Byte>, rest: string, k: nat)
    requires k < |bs|
    ensures ByteAt(PercentBytes(bs) + rest, 3 * k) == Some(bs[k])
  {
    var tail := PercentBytes(bs[1..]) + rest;
    assert PercentBytes(bs) + rest == PercentByte(bs[0]) + tail;
    if k == 0 {
      PercentByteRoundTrip(bs[0], tail);
    } else {
      PercentBytesAt(bs[1..], rest, k - 1);
      ByteAtOffset(PercentByte(bs[0]), tail);
      assert ByteAt(PercentByte(bs[0]) + tail, 3 + 3 * (k - 1)) == ByteAt(tail, 3 * (k - 1)) by {
        ShiftedByteAt(PercentByte(bs[0]), tail, 3 * (k - 1));
      }
    }
  }

  lemma ShiftedByteAt(x: string, y: string, i: nat)
    ensures ByteAt(x + y, |x| + i) == ByteAt(y, i)
  {
    if i + 3 <= |y| {
      assert (x + y)[|x| + i..|x| + i + 3] == y[i..i + 3];
    }
  }

  lemma ContinuationFromByte(s: string, i: nat, b: Byte)
    requires ByteAt(s, i) == Some(b) && 0x80 <= b < 0xC0
    ensures ContinuationAt(s, i) == Some(b - 0x80)
  {
  }

  /** An escaped character decodes back to itself. */
  lemma DecodeOneEscaped(c: char, rest: string)
    ensures DecodeOne(PercentBytes(Utf8(c)) + rest) == Some((c, 3 * |Utf8(c)|))
  {
    var cp := c as int;
    if cp < 0x80 {
      PercentBytesAt(Utf8(c), rest, 0);
    } else if cp < 0x800 {
      DecodeOneTwoBytes(c, rest);
    } else if cp < 0x10000 {
      DecodeOneThreeBytes(c, rest);
    } else {
      DecodeOneFourBytes(c, rest);
    }
  }

  lemma DecodeOneTwoBytes(c: char, rest: string)
    requires 0x80 <= c as int < 0x800
    ensures DecodeOne(PercentBytes(Utf8(c)) + rest) == Some((c, 6))
  {
    var bs := Utf8(c);
    var s := PercentBytes(bs) + rest;
    var cp := c as int;
    PercentBytesAt(bs, rest, 0);
    PercentBytesAt(bs, rest, 1);
    Utf8TwoBytes(cp);
    ContinuationFromByte(s, 3, bs[1]);
    assert DecodeOne(s) == Some((cp as char, 6));
  }

  lemma DecodeOneThreeBytes(c: char, rest: string)
    requires 0x800 <= c as int < 0x10000
    ensures DecodeOne(PercentBytes(Utf8(c)) + rest) == Some((c, 9))
  {
    var bs := Utf8(c);
    var s := PercentBytes(bs) + rest;
    var cp := c as int;
    PercentBytesAt(bs, rest, 0);
    PercentBytesAt(bs, rest, 1);
    PercentBytesAt(bs, rest, 2);
    Utf8ThreeBytes(cp);
    ContinuationFromByte(s, 3, bs[1]);
    ContinuationFromByte(s, 6, bs[2]);
    assert DecodeOne(s) == Some((cp as char, 9));
  }

  lemma DecodeOneFourBytes(c: char, rest: string)
    requires 0x10000 <= c as int
    ensures DecodeOne(PercentBytes(Utf8(c)) + rest) == Some((c, 12))
  {
    var bs := Utf8(c);
    var s := PercentBytes(bs) + rest;
    var cp := c as int;
    PercentBytesAt(bs, rest, 0);
    PercentBytesAt(bs, rest, 1);
    PercentBytesAt(bs, rest, 2);
    PercentBytesAt(bs, rest, 3);
    Utf8FourBytes(cp);
    ContinuationFromByte(s, 3, bs[1]);
    ContinuationFromByte(s, 6, bs[2]);
    ContinuationFromByte(s, 9, bs[3]);
    assert DecodeOne(s) == Some((cp as char, 12));
  }

  lemma Utf8TwoBytes(cp: int)
    requires 0x80 <= cp < 0x800
    ensures 0xC0 <= 0xC0 + cp / 64 < 0xE0
    ensures ((0xC0 + cp / 64) - 0xC0) * 64 + cp % 64 == cp
  {
  }

  lemma Utf8ThreeBytes(cp: int)
    requires 0x800 <= cp < 0x10000
    ensures 0xE0 <= 0xE0 + cp / 4096 < 0xF0
    ensures cp / 4096 * 4096 + (cp / 64) % 64 * 64 + cp % 64 == cp
  {
    var q := cp / 64;
    assert q / 64 == cp / 4096;
    assert q / 64 * 64 + q % 64 == q;
  }

  lemma Utf8FourBytes(cp: int)
    requires 0x10000 <= cp < 0x110000
    ensures 0xF0 <= 0xF0 + cp / 0x40000 < 0xF8
    ensures cp / 0x40000 * 0x40000 + (cp / 4096) % 64 * 4096 + (cp / 64) % 64 * 64 + cp % 64 == cp
  {
    var q := cp / 64;
    var r := q / 64;
    assert r == cp / 4096;
    assert r / 64 == cp / 0x40000;
    assert r / 64 * 64 + r % 64 == r;
    assert q / 64 * 64 + q % 64 == q;
  }

  /** Decoding reads an encoded character back and stops exactly after it. */
  lemma DecodeOneEncodeChar(c: char, rest: string)
    ensures DecodeOne(EncodeChar(c) + rest) == Some((c, |EncodeChar(c)|))
  {
    if !IsUnreserved(c) {
      DecodeOneEscaped(c, rest);
    }
  }

  lemma DecodeStep(s: string, c: char, n: nat)
    requires |s| > 0 && DecodeOne(s) == Some((c, n))
    ensures Decode(s) == Prepend([c], Decode(s[n..]))
  {
  }

  lemma PrependTwice(x: string, y: string, r: Option<string>)
    ensures Prepend(x, Prepend(y, r)) == Prepend(x + y, r)
  {
    match r
    case None =>
    case Some(t) => assert x + (y + t) == (x + y) + t;
  }

  /** Decoding an encoded prefix yields the prefix in front of the decoded rest. */
  lemma {:induction false} DecodeAfterEncoded(a: string, t: string)
    ensures Decode(Encode(a) + t) == Prepend(a, Decode(t))
  {
    if |a| == 0 {
      assert Encode(a) + t == t;
      match Decode(t)
      case None =>
      case Some(u) => assert a + u == u;
    } else {
      var e := EncodeChar(a[0]);
      var t' := Encode(a[1..]) + t;
      var s := Encode(a) + t;
      assert s == e + t';
      DecodeOneEncodeChar(a[0], t');
      assert s[|e|..] == t';
      DecodeStep(s, a[0], |e|);
      DecodeAfterEncoded(a[1..], t);
      PrependTwice([a[0]], a[1..], Decode(t));
      assert [a[0]] + a[1..] == a;
    }
  }

  /** `decodeURIComponent(encodeURIComponent(s)) == s`. */
  lemma DecodeEncode(s: string)
    ensures Decode(Encode(s)) == Some(s)
  {
    DecodeAfterEncoded(s, "");
    assert Encode(s) + "" == Encode(s);
    assert s + "" == s;
  }

  /** `encodeURIComponent` leaves a string of unreserved characters as it is. */
  lemma {:induction false} EncodeUnreserved(s: string)
    requires forall i :: 0 <= i < |s| ==> IsUnreserved(s[i])
    ensures Encode(s) == s
  {
    if |s| > 0 {
      EncodeUnreserved(s[1..]);
      assert s == [s[0]] + s[1..];
    }
  }

  /** Each segment encoded on its own. */
  function EncodeAll(parts: seq<string>): (r: seq<string>)
    ensures |r| == |parts|
    ensures forall i :: 0 <= i < |r| ==> '/' !in r[i]
  {
    seq(|parts|, i requires 0 <= i < |parts| => Encode(parts[i]))
  }

  /** The path encoding of links: split on `/`, encode each segment, rejoin with `/`. */
  function EncodePath(p: string): (r: string)
    ensures Text.Split(r, '/') == EncodeAll(Text.Split(p, '/'))
  {
    var parts := EncodeAll(Text.Split(p, '/'));
    Text.SplitJoin(parts, '/');
    Text.Join(parts, '/')
  }

  /**
   * The encoded path has exactly the segments of the original path, each
   * encoded on its own: no `/` appears or disappears.
   */
  lemma EncodePathSegments(p: string)
    ensures Text.Split(EncodePath(p), '/') == EncodeAll(Text.Split(p, '/'))
    ensures |Text.Split(EncodePath(p), '/')| == |Text.Split(p, '/')|
  {
    Text.SplitJoin(EncodeAll(Text.Split(p, '/')), '/');
  }

  /** A slash is not an escape: it decodes to itself. */
  lemma DecodeSlash(t: string)
    ensures Decode(['/'] + t) == Prepend("/", Decode(t))
  {
    assert (['/'] + t)[1..] == t;
  }

  lemma {:induction false} DecodeJoin(parts: seq<string>)
    requires |parts| >= 1
    ensures Decode(Text.Join(EncodeAll(parts), '/')) == Some(Text.Join(parts, '/'))
  {
    if |parts| == 1 {
      DecodeEncode(parts[0]);
    } else {
      var tail := Text.Join(EncodeAll(parts[1..]), '/');
      assert Text.Join(EncodeAll(parts), '/') == Encode(parts[0]) + (['/'] + tail) by {
        assert EncodeAll(parts)[1..] == EncodeAll(parts[1..]);
      }
      DecodeJoin(parts[1..]);
      DecodeAfterEncoded(parts[0], ['/'] + tail);
      assert Decode(['/'] + tail) == Prepend("/", Decode(tail)) by {
        DecodeSlash(tail);
      }
      assert parts[0] + (['/'] + Text.Join(parts[1..], '/')) == Text.Join(parts, '/');
    }
  }

  /** Decoding an encoded path gives back the path. */
  lemma DecodeEncodePath(p: string)
    ensures Decode(EncodePath(p)) == Some(p)
  {
    DecodeJoin(Text.Split(p, '/'));
    Text.JoinSplit(p, '/');
  }

  /** A path of unreserved characters and slashes is its own encoding. */
  lemma EncodePathUnreserved(p: string)
    requires forall i :: 0 <= i < |p| ==> IsUnreserved(p[i]) || p[i] == '/'
    ensures EncodePath(p) == p
  {
    var parts := Text.Split(p, '/');
    Text.SplitChars(p, '/');
    forall i | 0 <= i < |parts| ensures Encode(parts[i]) == parts[i] {
      forall j | 0 <= j < |parts[i]| ensures IsUnreserved(parts[i][j]) {
        assert parts[i][j] in parts[i] && parts[i][j] != '/';
        assert parts[i][j] in p;
        var k :| 0 <= k < |p| && p[k] == parts[i][j];
      }
      EncodeUnreserved(parts[i]);
    }
    assert EncodeAll(parts) == parts;
    Text.JoinSplit(p, '/');
  }

  lemma {:induction false} EncodeAppend(a: string, b: string)
    ensures Encode(a + b) == Encode(a) + Encode(b)
  {
    if |a| > 0 {
      var c := EncodeChar(a[0]);
      assert Encode(a + b) == c + Encode(a[1..] + b) by {
        assert (a + b)[0] == a[0] && (a + b)[1..] == a[1..] + b;
      }
      EncodeAppend(a[1..], b);
      assert c + (Encode(a[1..]) + Encode(b)) == (c + Encode(a[1..])) + Encode(b);
    } else {
      assert a + b == b;
    }
  }

  /** A space becomes `%20`. */
  lemma EncodeSpace()
    ensures Encode(" ") == "%20"
  {
    assert Utf8(' ') == [0x20];
    assert PercentBytes([0x20]) == PercentByte(0x20);
  }

  /** `encodeURIComponent` of a word, a space and a word. */
  lemma EncodeSpaced(a: string, b: string)
    requires forall i :: 0 <= i < |a| ==> IsUnreserved(a[i])
    requires forall i :: 0 <= i < |b| ==> IsUnreserved(b[i])
    ensures Encode(a + " " + b) == a + "%20" + b
  {
    EncodeAppend(a + " ", b);
    EncodeAppend(a, " ");
    EncodeUnreserved(a);
    EncodeUnreserved(b);
    EncodeSpace();
  }

  lemma EncodeAllPair(x: string, y: string)
    ensures EncodeAll([x, y]) == [Encode(x), Encode(y)]
  {
  }

  /** A path of two segments is encoded segment by segment around its one slash. */
  lemma {:induction false} EncodePathPair(x: string, y: string)
    requires '/' !in x && '/' !in y
    ensures EncodePath(x + "/" + y) == Encode(x) + "/" + Encode(y)
  {
    Text.SplitWithoutSeparator(y, '/');
    Text.SplitAtSeparator(x, '/', y);
    assert Text.Split(x + "/" + y, '/') == [x, y];
    EncodeAllPair(x, y);
    assert Text.Join([Encode(x), Encode(y)], '/') == Encode(x) + ['/'] + Encode(y);
  }

  /** Two unreserved words around a space contain no slash. */
  lemma SpacedHasNoSlash(a: string, b: string)
    requires forall i :: 0 <= i < |a| ==> IsUnreserved(a[i])
    requires forall i :: 0 <= i < |b| ==> IsUnreserved(b[i])
    ensures '/' !in a + " " + b
  {
    var x := a + " " + b;
    assert forall i :: 0 <= i < |x| ==> x[i] == ' ' || IsUnreserved(x[i]);
  }

  /**
   * A path of two segments, each two unreserved words around a space (such
   * as `topic 1/My Post`), is encoded segment by segment (`topic%201/My%20Post`),
   * keeping its slash, and decodes back.
   */
  lemma EncodePathOfSpacedSegments(a: string, b: string, c: string, d: string)
    requires forall i :: 0 <= i < |a| ==> IsUnreserved(a[i])
    requires forall i :: 0 <= i < |b| ==> IsUnreserved(b[i])
    requires forall i :: 0 <= i < |c| ==> IsUnreserved(c[i])
    requires forall i :: 0 <= i < |d| ==> IsUnreserved(d[i])
    ensures EncodePath((a + " " + b) + "/" + (c + " " + d)) == (a + "%20" + b) + "/" + (c + "%20" + d)
    ensures Decode((a + "%20" + b) + "/" + (c + "%20" + d)) == Some((a + " " + b) + "/" + (c + " " + d))
  {
    SpacedHasNoSlash(a, b);
    SpacedHasNoSlash(c, d);
    EncodePathPair(a + " " + b, c + " " + d);
    EncodeSpaced(a, b);
    EncodeSpaced(c, d);
    DecodeEncodePath((a + " " + b) + "/" + (c + " " + d));
  }
}
