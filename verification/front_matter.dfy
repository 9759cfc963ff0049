/**
 * Front-matter extraction (docs/.vitepress/config.js, lines 43-78): the block
 * matched by `/^---\n([\s\S]*?)\n---/`, the four keys each found by the
 * unanchored regex `key:\s*(.+)`, value clean-up, and `parseInt(...) || 999`
 * for `order`.
 */
module FrontMatter {
  import opened Wrappers
  import Text

  const Opening := "---\n"
  const Closing := "\n---"

  /**
   * The body of the front-matter block. The content must begin with `---`
   * and a newline; the lazy `[\s\S]*?` makes the body run to the FIRST
   * newline-`---` after the opening, which may be followed by anything.
   */
  function Block(content: string): (r: Option<string>)
    ensures r.Some? <==> Text.IsAt(content, 0, Opening) && exists i: nat :: 4 <= i && Text.IsAt(content, i, Closing)
    ensures r.Some? ==> && content[..4] == Opening
                        && Text.IsAt(content, 4 + |r.value|, Closing)
                        && content[4..4 + |r.value|] == r.value
    ensures r.Some? ==> forall j: nat :: 4 <= j < 4 + |r.value| ==> !Text.IsAt(content, j, Closing)
  {
    if !Text.IsAt(content, 0, Opening) then None
    else match Text.IndexFrom(content, Closing, 4)
      case None => None
      case Some(i) => Some(content[4..i])
  }

  /**
   * With `\s*` having consumed `s[q..k]`, the group `(.+)` can start at `k`:
   * everything skipped is `\s`, and `s[k]` is a character `.` matches.
   */
  predicate CanCaptureFrom(s: string, q: nat, k: nat) {
    && q <= k < |s|
    && (forall j :: q <= j < k ==> Text.IsSpace(s[j]))
    && !Text.IsLineTerminator(s[k])
  }

  /** End of the run of `\s` characters starting at `q`. */
  function SpaceEnd(s: string, q: nat): (e: nat)
    requires q <= |s|
    decreases |s| - q
    ensures q <= e <= |s|
    ensures forall j :: q <= j < e ==> Text.IsSpace(s[j])
    ensures e < |s| ==> !Text.IsSpace(s[e])
  {
    if q < |s| && Text.IsSpace(s[q]) then SpaceEnd(s, q + 1) else q
  }

  /** End of the line containing position `k`: how far the greedy `.+` reaches. */
  function LineEnd(s: string, k: nat): (e: nat)
    requires k <= |s|
    decreases |s| - k
    ensures k <= e <= |s|
    ensures forall j :: k <= j < e ==> !Text.IsLineTerminator(s[j])
    ensures e < |s| ==> Text.IsLineTerminator(s[e])
  {
    if k < |s| && !Text.IsLineTerminator(s[k]) then LineEnd(s, k + 1) else k
  }

  /** The last position in `[q, e)` holding a character other than a line terminator. */
  function LastNonTerminator(s: string, q: nat, e: nat): (r: Option<nat>)
    requires q <= e <= |s|
    decreases e - q
    ensures r.Some? ==> q <= r.value < e && !Text.IsLineTerminator(s[r.value])
    ensures r.Some? ==> forall j :: r.value < j < e ==> Text.IsLineTerminator(s[j])
    ensures r.None? ==> forall j :: q <= j < e ==> Text.IsLineTerminator(s[j])
  {
    if e == q then None
    else if !Text.IsLineTerminator(s[e - 1]) then Some(e - 1)
    else LastNonTerminator(s, q, e - 1)
  }

  /**
   * Where `(.+)` starts once `\s*` has been matched from `q`: the greedy
   * `\s*` takes the whole run of spaces, and gives characters back only when
   * the run ends at a line terminator or at the end of the block.
   */
  function CaptureStart(s: string, q: nat): (r: Option<nat>)
    requires q <= |s|
    ensures r.Some? ==> CanCaptureFrom(s, q, r.value)
    ensures r.Some? ==> forall k: nat :: CanCaptureFrom(s, q, k) ==> k <= r.value
    ensures r.None? ==> !HasCapture(s, q)
  {
    var e := SpaceEnd(s, q);
    if e < |s| && !Text.IsLineTerminator(s[e]) then Some(e)
    else LastNonTerminator(s, q, e)
  }

  /** Some split of the text after `q` lets `\s*(.+)` match. */
  ghost predicate HasCapture(s: string, q: nat) {
    exists k: nat :: CanCaptureFrom(s, q, k)
  }

  /** `k` is where the greedy `\s*` lets `(.+)` start: the last possible start. */
  ghost predicate IsLastCaptureStart(s: string, q: nat, k: nat) {
    CanCaptureFrom(s, q, k) && forall k': nat :: CanCaptureFrom(s, q, k') ==> k' <= k
  }

  /** `key:\s*(.+)` matches at position `p`. */
  ghost predicate MatchesAt(s: string, key: string, p: nat) {
    Text.IsAt(s, p, key + ":") && HasCapture(s, p + |key| + 1)
  }

  /** The leftmost match position at or after `from`. */
  function MatchFrom(s: string, key: string, from: nat): (r: Option<nat>)
    decreases |s| - from
    ensures r.Some? ==> from <= r.value && MatchesAt(s, key, r.value)
    ensures r.Some? ==> forall p :: from <= p < r.value ==> !MatchesAt(s, key, p)
    ensures r.None? ==> forall p :: from <= p ==> !MatchesAt(s, key, p)
  {
    if from + |key| + 1 > |s| then None
    else if Text.IsAt(s, from, key + ":") && CaptureStart(s, from + |key| + 1).Some? then
      assert CanCaptureFrom(s, from + |key| + 1, CaptureStart(s, from + |key| + 1).value);
      Some(from)
    else MatchFrom(s, key, from + 1)
  }

  /**
   * `s.match(/key:\s*(.+)/)[1]`: the capture group of the leftmost match. It
   * is never empty and never spans a line break.
   */
  function Match(s: string, key: string): (r: Option<string>)
    ensures r.Some? <==> exists p :: MatchesAt(s, key, p)
    ensures r.Some? ==> |r.value| > 0 && forall i :: 0 <= i < |r.value| ==> !Text.IsLineTerminator(r.value[i])
  {
    match MatchFrom(s, key, 0)
    case None => None
    case Some(p) =>
      var k := CaptureStart(s, p + |key| + 1).value;
      Some(s[k..LineEnd(s, k)])
  }

  /**
   * The match is the leftmost position where the key is followed by a
   * capturable character, and the capture runs from the last start `\s*`
   * allows to the end of that line.
   */
  lemma MatchIsLeftmostLongest(s: string, key: string, p: nat, k: nat)
    requires MatchesAt(s, key, p) && forall p': nat :: p' < p ==> !MatchesAt(s, key, p')
    requires IsLastCaptureStart(s, p + |key| + 1, k)
    ensures Match(s, key) == Some(s[k..LineEnd(s, k)])
  {
    var m := MatchFrom(s, key, 0);
    assert m == Some(p);
    var k' := CaptureStart(s, p + |key| + 1).value;
    assert CanCaptureFrom(s, p + |key| + 1, k');
    assert k' <= k && k <= k';
  }

  /**
   * When the key is followed by spaces and then text on the same line, the
   * capture is exactly the rest of that line from the first non-space.
   */
  lemma MatchSameLine(s: string, key: string, p: nat, k: nat)
    requires Text.IsAt(s, p, key + ":") && forall p': nat :: p' < p ==> !MatchesAt(s, key, p')
    requires p + |key| + 1 <= k < |s|
    requires forall j :: p + |key| + 1 <= j < k ==> Text.IsWhiteSpace(s[j])
    requires !Text.IsSpace(s[k])
    ensures Match(s, key) == Some(s[k..LineEnd(s, k)])
  {
    var q := p + |key| + 1;
    assert CanCaptureFrom(s, q, k);
    assert MatchesAt(s, key, p);
    forall k': nat | CanCaptureFrom(s, q, k') ensures k' <= k {
    }
    MatchIsLeftmostLongest(s, key, p, k);
  }

  /** Value clean-up for `title`, `category` and `date`: `.trim().replace(/['"]/g, '')`. */
  function Clean(v: string): (r: string)
    ensures forall i :: 0 <= i < |r| ==> !Text.IsQuote(r[i])
    ensures (forall i :: 0 <= i < |Text.Trim(v)| ==> !Text.IsQuote(Text.Trim(v)[i])) ==> r == Text.Trim(v)
  {
    var t := Text.Trim(v);
    if forall i :: 0 <= i < |t| ==> !Text.IsQuote(t[i]) then
      Text.RemoveQuotesUnchanged(t);
      t
    else
      Text.RemoveQuotes(t)
  }

  /**
   * A value written in quotes, such as `title: "My post"`, is cleaned to the
   * text between the quotes, provided that text holds no quote of its own.
   */
  lemma {:induction false} CleanQuotedValue(v: string, w: string, q: char, q': char)
    requires Text.IsQuote(q) && Text.IsQuote(q')
    requires forall i :: 0 <= i < |w| ==> !Text.IsQuote(w[i])
    requires Text.Trim(v) == [q] + w + [q']
    ensures Clean(v) == w
  {
    var t := Text.Trim(v);
    Text.RemoveQuotesAppend([q] + w, [q']);
    Text.RemoveQuotesAppend([q], w);
    Text.RemoveQuotesUnchanged(w);
    assert Text.RemoveQuotes([q]) == "";
    assert Text.RemoveQuotes([q']) == "";
  }

  /** Digit value in radix 36, as `parseInt` reads digits. */
  function DigitValue(c: char): Option<nat> {
    if '0' <= c <= '9' then Some(c as int - '0' as int)
    else if 'a' <= c <= 'z' then Some(c as int - 'a' as int + 10)
    else if 'A' <= c <= 'Z' then Some(c as int - 'A' as int + 10)
    else None
  }

  predicate IsDigitOf(c: char, radix: nat) {
    DigitValue(c).Some? && DigitValue(c).value < radix
  }

  /** The longest prefix of radix digits. */
  function DigitPrefix(s: string, radix: nat): (r: string)
    ensures |r| <= |s| && r == s[..|r|]
    ensures forall i :: 0 <= i < |r| ==> IsDigitOf(r[i], radix)
    ensures |r| < |s| ==> !IsDigitOf(s[|r|], radix)
  {
    if |s| > 0 && IsDigitOf(s[0], radix) then [s[0]] + DigitPrefix(s[1..], radix) else ""
  }

  lemma ProductNat(a: nat, b: nat)
    ensures a * b >= 0
  {
  }

  /** Positional value of a digit string, most significant digit first. */
  function DigitsValue(ds: string, radix: nat): nat
    requires forall i :: 0 <= i < |ds| ==> IsDigitOf(ds[i], radix)
  {
    if |ds| == 0 then 0
    else
      var last := ds[|ds| - 1];
      var front := ds[..|ds| - 1];
      assert IsDigitOf(last, radix);
      assert forall i :: 0 <= i < |front| ==> front[i] == ds[i];
      var high := DigitsValue(front, radix);
      ProductNat(high, radix);
      high * radix + DigitValue(last).value
  }

  /**
   * `parseInt(s)` without a radix: leading spaces skipped, an optional sign,
   * then the digits. `None` stands for NaN (no digit at all).
   */
  function ParseInt(s: string): (r: Option<int>)
    ensures r.Some? ==> var t := Text.TrimStart(s);
              |t| > 0 && (IsDigitOf(t[0], 10) || t[0] == '-' || t[0] == '+')
  {
    ParseSigned(Text.TrimStart(s))
  }

  function ParseSigned(t: string): Option<int> {
    if |t| > 0 && t[0] == '-' then
      match ParseUnsigned(t[1..])
      case None => None
      case Some(n) => var v: int := n; Some(-v)
    else if |t| > 0 && t[0] == '+' then ParseUnsigned(t[1..])
    else ParseUnsigned(t)
  }

  /** A `0x`/`0X` prefix switches to radix 16; then the longest run of digits. */
  function ParseUnsigned(u: string): Option<nat> {
    var hex := |u| >= 2 && u[0] == '0' && (u[1] == 'x' || u[1] == 'X');
    var radix := if hex then 16 else 10;
    var digits := DigitPrefix(if hex then u[2..] else u, radix);
    if |digits| == 0 then None else Some(DigitsValue(digits, radix))
  }

  const DefaultOrder := 999

  /** `parseInt(v.trim()) || 999`: NaN and zero both fall back to 999. */
  function OrderValue(v: string): (r: int)
    ensures r != 0
    ensures ParseInt(Text.Trim(v)).None? ==> r == DefaultOrder
    ensures ParseInt(Text.Trim(v)) == Some(0) ==> r == DefaultOrder
    ensures ParseInt(Text.Trim(v)).Some? && ParseInt(Text.Trim(v)).value != 0 ==> r == ParseInt(Text.Trim(v)).value
  {
    match ParseInt(Text.Trim(v))
    case Some(n) => if n == 0 then DefaultOrder else n
    case None => DefaultOrder
  }

  /** Decimal numeral of a natural number, without leading zeros. */
  function Decimal(n: nat): (r: string)
    ensures |r| > 0
    ensures forall i :: 0 <= i < |r| ==> '0' <= r[i] <= '9'
    ensures n > 0 ==> r[0] != '0'
  {
    if n < 10 then [('0' as int + n) as char]
    else Decimal(n / 10) + [('0' as int + n % 10) as char]
  }

  /** Decimal numeral of an integer, with a leading `-` when negative. */
  function IntString(n: int): string {
    if n < 0 then "-" + Decimal(-n) else Decimal(n)
  }

  lemma {:induction false} DecimalValue(n: nat)
    ensures forall i :: 0 <= i < |Decimal(n)| ==> IsDigitOf(Decimal(n)[i], 10)
    ensures DigitsValue(Decimal(n), 10) == n
  {
    if n >= 10 {
      DecimalValue(n / 10);
      var d := Decimal(n);
      assert d[..|d| - 1] == Decimal(n / 10);
    }
  }

  lemma {:induction false} DigitPrefixOfDigits(a: string, b: string, radix: nat)
    requires forall i :: 0 <= i < |a| ==> IsDigitOf(a[i], radix)
    requires |b| == 0 || !IsDigitOf(b[0], radix)
    ensures DigitPrefix(a + b, radix) == a
  {
    if |a| > 0 {
      DigitPrefixOfDigits(a[1..], b, radix);
      assert (a + b)[1..] == a[1..] + b;
      assert a == [a[0]] + a[1..];
    } else {
      assert a + b == b;
    }
  }

  lemma TrimStartUnchanged(s: string)
    requires |s| > 0 && !Text.IsSpace(s[0])
    ensures Text.TrimStart(s) == s
  {
  }

  lemma TrimEndUnchanged(s: string)
    requires |s| > 0 && !Text.IsSpace(s[|s| - 1])
    ensures Text.TrimEnd(s) == s
  {
  }

  lemma ParseUnsignedDecimal(m: nat, rest: string)
    requires |rest| == 0 || (!IsDigitOf(rest[0], 10) && (m == 0 ==> rest[0] != 'x' && rest[0] != 'X'))
    ensures ParseUnsigned(Decimal(m) + rest) == Some(m)
  {
    var u := Decimal(m) + rest;
    DecimalValue(m);
    DigitPrefixOfDigits(Decimal(m), rest, 10);
    if |u| >= 2 && u[0] == '0' {
      assert m == 0;
      assert u[1] == rest[0];
    }
  }

  /**
   * `parseInt` reads a decimal numeral back, whatever non-digit text follows
   * it; only after a lone `0` may that text not start with `x` or `X`, which
   * would make a hexadecimal prefix.
   */
  lemma ParseIntDecimal(n: int, rest: string)
    requires |rest| == 0 || (!IsDigitOf(rest[0], 10) && (n == 0 ==> rest[0] != 'x' && rest[0] != 'X'))
    ensures ParseInt(IntString(n) + rest) == Some(n)
  {
    var m: nat := if n < 0 then -n else n;
    var d := Decimal(m) + rest;
    ParseUnsignedDecimal(m, rest);
    assert d[0] == Decimal(m)[0];
    if n < 0 {
      assert IntString(n) + rest == "-" + d;
      ParseNegative(d, m);
    } else {
      assert IntString(n) + rest == d;
      ParseDigitFirst(d, m);
    }
  }

  lemma ParseNegative(d: string, m: nat)
    requires ParseUnsigned(d) == Some(m)
    ensures ParseInt("-" + d) == Some(-(m as int))
  {
    var s := "-" + d;
    assert s[0] == '-' && s[1..] == d;
    TrimStartUnchanged(s);
  }

  lemma ParseDigitFirst(d: string, m: nat)
    requires |d| > 0 && '0' <= d[0] <= '9'
    requires ParseUnsigned(d) == Some(m)
    ensures ParseInt(d) == Some(m)
  {
    TrimStartUnchanged(d);
  }

  /** `order` reads a nonzero numeral as its value and zero as 999. */
  lemma OrderValueOfNumeral(n: int)
    ensures OrderValue(IntString(n)) == if n == 0 then DefaultOrder else n
  {
    var s := IntString(n);
    ParseIntDecimal(n, "");
    assert s + "" == s;
    NumeralTrimmed(n);
  }

  lemma NumeralTrimmed(n: int)
    ensures Text.Trim(IntString(n)) == IntString(n)
  {
    var s := IntString(n);
    var d := Decimal(if n < 0 then -n else n);
    assert s[|s| - 1] == d[|d| - 1];
    assert s[0] == '-' || s[0] == d[0];
    TrimStartUnchanged(s);
    TrimEndUnchanged(s);
  }

  /** Quotes are not removed before `parseInt`, so a quoted order is NaN and falls back to 999. */
  lemma QuotedOrderIsDefault(n: int)
    ensures OrderValue("\"" + IntString(n) + "\"") == DefaultOrder
  {
    var s := "\"" + IntString(n) + "\"";
    TrimStartUnchanged(s);
    TrimEndUnchanged(s);
    assert ParseSigned(s) == ParseUnsigned(s);
  }

  /** The four keys the indexer looks for, each as found in the block. */
  datatype Fields = Fields(title: Option<string>, category: Option<string>, date: Option<string>, order: Option<int>)

  /** The cleaned value of the first match of `key`. */
  function Field(block: string, key: string): (r: Option<string>)
    ensures r.Some? <==> Match(block, key).Some?
    ensures r.Some? ==> forall i :: 0 <= i < |r.value| ==> !Text.IsQuote(r.value[i])
  {
    match Match(block, key)
    case None => None
    case Some(v) => Some(Clean(v))
  }

  /**
   * The front-matter fields of a file's content; every field is absent
   * when the content has no front-matter block.
   */
  function Extract(content: string): (f: Fields)
    ensures Block(content).None? ==> f == Fields(None, None, None, None)
    ensures Block(content).Some? ==> f.title.Some? == Match(Block(content).value, "title").Some?
    ensures f.order.Some? ==> f.order.value != 0
  {
    match Block(content)
    case None => Fields(None, None, None, None)
    case Some(b) =>
      Fields(
        Field(b, "title"),
        Field(b, "category"),
        Field(b, "date"),
        match Match(b, "order")
        case None => None
        case Some(v) => Some(OrderValue(v)))
  }
}
