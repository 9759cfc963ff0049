/**
 * The JavaScript string operations the indexer relies on, over Dafny strings
 * (sequences of Unicode scalar values): search and first-occurrence replace,
 * `split`/`join` on one separator character, `trim`, quote removal, and the
 * UTF-16 code-unit order that `Array.prototype.sort()` uses on strings.
 */
module Text {
  import opened Wrappers

  /** `pat` occurs in `s` starting at position `i`. */
  predicate IsAt(s: string, i: nat, pat: string) {
    i + |pat| <= |s| && s[i..i + |pat|] == pat
  }

  predicate Contains(s: string, pat: string) {
    exists i: nat :: i <= |s| && IsAt(s, i, pat)
  }

  /** Leftmost occurrence of `pat` at or after position `from`. */
  function IndexFrom(s: string, pat: string, from: nat): (r: Option<nat>)
    decreases |s| - from
    ensures r.Some? ==> from <= r.value && IsAt(s, r.value, pat)
    ensures r.Some? ==> forall j: nat :: from <= j < r.value ==> !IsAt(s, j, pat)
    ensures r.None? ==> forall j: nat :: from <= j ==> !IsAt(s, j, pat)
  {
    if from + |pat| > |s| then None
    else if s[from..from + |pat|] == pat then Some(from)
    else IndexFrom(s, pat, from + 1)
  }

  /** `String.prototype.indexOf`: the leftmost occurrence, if any. */
  function IndexOf(s: string, pat: string): (r: Option<nat>)
    ensures r.None? <==> !Contains(s, pat)
    ensures r.Some? ==> IsAt(s, r.value, pat) && forall j: nat :: j < r.value ==> !IsAt(s, j, pat)
  {
    IndexFrom(s, pat, 0)
  }

  /**
   * `String.prototype.replace` with a string pattern: only the leftmost
   * occurrence is replaced; without an occurrence the string is unchanged.
   */
  function ReplaceFirst(s: string, pat: string, rep: string): (r: string)
    ensures !Contains(s, pat) ==> r == s
    ensures Contains(s, pat) ==> |r| == |s| - |pat| + |rep|
  {
    match IndexOf(s, pat)
    case None => s
    case Some(i) => s[..i] + rep + s[i + |pat|..]
  }

  /** The occurrence `ReplaceFirst` replaces is the leftmost one. */
  lemma ReplaceFirstLeftmost(s: string, pat: string, rep: string, i: nat)
    requires IsAt(s, i, pat)
    requires forall j: nat :: j < i ==> !IsAt(s, j, pat)
    ensures ReplaceFirst(s, pat, rep) == s[..i] + rep + s[i + |pat|..]
  {
    var k := IndexOf(s, pat);
    assert k.Some? by {
      assert i <= |s|;
    }
    if k.value < i {
      assert false;
    } else if k.value > i {
      assert false;
    }
  }

  /**
   * An occurrence of `pat` cannot start inside a prefix that does not contain
   * it and cannot cross a character that `pat` does not contain, so replacing
   * the first occurrence only touches the part after that character.
   */
  lemma ReplaceFirstAfterSeparator(a: string, c: char, b: string, pat: string, rep: string)
    requires |pat| > 0 && c !in pat
    requires !Contains(a, pat)
    ensures ReplaceFirst(a + [c] + b, pat, rep) == a + [c] + ReplaceFirst(b, pat, rep)
  {
    IndexOfAfterSeparator(a, c, b, pat);
    if IndexOf(b, pat).None? {
      ReplaceFirstAt(a + [c] + b, pat, rep);
      ReplaceFirstAt(b, pat, rep);
    } else {
      ReplaceAfterSeparatorAt(a, c, b, pat, rep, IndexOf(b, pat).value);
    }
  }

  lemma ReplaceAfterSeparatorAt(a: string, c: char, b: string, pat: string, rep: string, k: nat)
    requires IndexOf(b, pat) == Some(k) && IndexOf(a + [c] + b, pat) == Some(|a| + 1 + k)
    ensures ReplaceFirst(a + [c] + b, pat, rep) == a + [c] + ReplaceFirst(b, pat, rep)
  {
    ReplaceFirstAt(a + [c] + b, pat, rep);
    ReplaceFirstAt(b, pat, rep);
    SpliceAfterSeparator(a, c, b, k, |pat|, rep);
  }

  /** `ReplaceFirst` in terms of the position `IndexOf` finds. */
  lemma ReplaceFirstAt(s: string, pat: string, rep: string)
    ensures IndexOf(s, pat).None? ==> ReplaceFirst(s, pat, rep) == s
    ensures IndexOf(s, pat).Some? ==>
              var i := IndexOf(s, pat).value;
              i + |pat| <= |s| && ReplaceFirst(s, pat, rep) == s[..i] + rep + s[i + |pat|..]
  {
  }

  /** Splicing `rep` in at offset `k` of `b` is splicing it in after `a + [c]`. */
  lemma SpliceAfterSeparator(a: string, c: char, b: string, k: nat, n: nat, rep: string)
    requires k + n <= |b|
    ensures var s := a + [c] + b;
            var i := |a| + 1 + k;
            s[..i] + rep + s[i + n..] == a + [c] + (b[..k] + rep + b[k + n..])
  {
    var s := a + [c] + b;
    var i := |a| + 1 + k;
    assert s[..i] == a + [c] + b[..k];
    assert s[i + n..] == b[k + n..];
  }

  lemma IndexOfAfterSeparator(a: string, c: char, b: string, pat: string)
    requires |pat| > 0 && c !in pat
    requires !Contains(a, pat)
    ensures IndexOf(b, pat).None? ==> IndexOf(a + [c] + b, pat).None?
    ensures IndexOf(b, pat).Some? ==> IndexOf(a + [c] + b, pat) == Some(|a| + 1 + IndexOf(b, pat).value)
  {
    var s := a + [c] + b;
    var off := |a| + 1;
    NoMatchBeforeSeparator(a, c, b, pat);
    match IndexOf(b, pat)
    case None =>
      forall j: nat | j <= |s| ensures !IsAt(s, j, pat) {
        if j >= off {
          MatchShift(a, c, b, pat, j - off);
        }
      }
    case Some(k) =>
      MatchShift(a, c, b, pat, k);
      forall j: nat | j < off + k ensures !IsAt(s, j, pat) {
        if j >= off {
          MatchShift(a, c, b, pat, j - off);
        }
      }
      assert off + k <= |s|;
  }

  lemma NoMatchBeforeSeparator(a: string, c: char, b: string, pat: string)
    requires |pat| > 0 && c !in pat
    requires !Contains(a, pat)
    ensures forall j: nat :: j <= |a| ==> !IsAt(a + [c] + b, j, pat)
  {
    var s := a + [c] + b;
    forall j: nat | j <= |a|
      ensures !IsAt(s, j, pat)
    {
      if j + |pat| <= |a| {
        assert s[j..j + |pat|] == a[j..j + |pat|];
        assert !IsAt(a, j, pat);
      } else if j + |pat| <= |s| {
        assert s[j..j + |pat|][|a| - j] == c;
      }
    }
  }

  lemma MatchShift(a: string, c: char, b: string, pat: string, k: nat)
    ensures IsAt(a + [c] + b, |a| + 1 + k, pat) <==> IsAt(b, k, pat)
  {
    var s := a + [c] + b;
    if |a| + 1 + k + |pat| <= |s| {
      assert s[|a| + 1 + k..|a| + 1 + k + |pat|] == b[k..k + |pat|];
    }
  }

  /** Every occurrence of character `from` replaced by `to` (a global regex replace). */
  function ReplaceChar(s: string, from: char, to: char): (r: string)
    ensures |r| == |s|
    ensures forall i :: 0 <= i < |s| ==> r[i] == (if s[i] == from then to else s[i])
    ensures from !in s ==> r == s
    ensures from != to ==> from !in r
  {
    if |s| == 0 then ""
    else [if s[0] == from then to else s[0]] + ReplaceChar(s[1..], from, to)
  }

  /** Replacing a character works position by position, so it distributes over concatenation. */
  lemma {:induction false} ReplaceCharAppend(a: string, b: string, from: char, to: char)
    ensures ReplaceChar(a + b, from, to) == ReplaceChar(a, from, to) + ReplaceChar(b, from, to)
  {
    var l := ReplaceChar(a + b, from, to);
    var ra := ReplaceChar(a, from, to);
    var rb := ReplaceChar(b, from, to);
    assert |l| == |ra + rb|;
    forall i | 0 <= i < |l| ensures l[i] == (ra + rb)[i] {
      if i < |a| {
        assert (a + b)[i] == a[i] && (ra + rb)[i] == ra[i];
      } else {
        assert (a + b)[i] == b[i - |a|] && (ra + rb)[i] == rb[i - |a|];
      }
    }
  }

  /** Replacing twice changes nothing more: the result holds no `from` left to replace. */
  lemma {:induction false} ReplaceCharIdempotent(s: string, from: char, to: char)
    ensures ReplaceChar(ReplaceChar(s, from, to), from, to) == ReplaceChar(s, from, to)
  {
    var r := ReplaceChar(s, from, to);
    if from != to {
      assert from !in r;
    } else {
      forall i | 0 <= i < |r| ensures ReplaceChar(r, from, to)[i] == r[i] {
      }
    }
  }

  predicate EndsWith(s: string, suffix: string) {
    |suffix| <= |s| && s[|s| - |suffix|..] == suffix
  }

  /** `String.prototype.split` on a one-character separator. */
  function Split(s: string, sep: char): (parts: seq<string>)
    ensures |parts| >= 1
    ensures forall i :: 0 <= i < |parts| ==> sep !in parts[i]
  {
    if |s| == 0 then [""]
    else
      var rest := Split(s[1..], sep);
      if s[0] == sep then [""] + rest
      else [[s[0]] + rest[0]] + rest[1..]
  }

  /** The combined length of the parts. */
  function TotalLength(parts: seq<string>): nat {
    if |parts| == 0 then 0 else |parts[0]| + TotalLength(parts[1..])
  }

  /** `Array.prototype.join` with a one-character separator. */
  function Join(parts: seq<string>, sep: char): string {
    if |parts| == 0 then ""
    else if |parts| == 1 then parts[0]
    else parts[0] + [sep] + Join(parts[1..], sep)
  }

  /** Joining adds exactly one separator between each two parts, and nothing else. */
  lemma {:induction false} JoinLength(parts: seq<string>, sep: char)
    requires |parts| > 0
    ensures |Join(parts, sep)| == TotalLength(parts) + |parts| - 1
  {
    if |parts| > 1 {
      JoinLength(parts[1..], sep);
    }
  }

  /** Joining the pieces of a split gives back the original string. */
  lemma {:induction false} JoinSplit(s: string, sep: char)
    ensures Join(Split(s, sep), sep) == s
  {
    if |s| > 0 {
      var rest := Split(s[1..], sep);
      JoinSplit(s[1..], sep);
      if s[0] == sep {
        assert ([""] + rest)[1..] == rest;
        assert s == [sep] + s[1..];
      } else {
        var p := [[s[0]] + rest[0]] + rest[1..];
        if |rest| > 1 {
          assert p[1..] == rest[1..];
        }
        assert s == [s[0]] + s[1..];
      }
    }
  }

  /** Every character of a part is a character of the split string. */
  lemma {:induction false} SplitChars(s: string, sep: char)
    ensures forall i, c :: 0 <= i < |Split(s, sep)| && c in Split(s, sep)[i] ==> c in s
  {
    if |s| > 0 {
      SplitChars(s[1..], sep);
      var rest := Split(s[1..], sep);
      assert forall c :: c in s[1..] ==> c in s;
      if s[0] != sep {
        assert forall i :: 1 <= i < |Split(s, sep)| ==> Split(s, sep)[i] == rest[i];
      } else {
        assert forall i :: 1 <= i < |Split(s, sep)| ==> Split(s, sep)[i] == rest[i - 1];
      }
    }
  }

  lemma {:induction false} SplitWithoutSeparator(s: string, sep: char)
    requires sep !in s
    ensures Split(s, sep) == [s]
  {
    if |s| > 0 {
      SplitWithoutSeparator(s[1..], sep);
      assert s == [s[0]] + s[1..];
    }
  }

  lemma {:induction false} SplitAtSeparator(a: string, sep: char, t: string)
    requires sep !in a
    ensures Split(a + [sep] + t, sep) == [a] + Split(t, sep)
  {
    var s := a + [sep] + t;
    if |a| == 0 {
      assert s[1..] == t;
    } else {
      assert s[1..] == a[1..] + [sep] + t;
      SplitAtSeparator(a[1..], sep, t);
      assert a == [a[0]] + a[1..];
    }
  }

  /** Splitting a join of separator-free pieces gives back the pieces. */
  lemma {:induction false} SplitJoin(parts: seq<string>, sep: char)
    requires |parts| >= 1
    requires forall i :: 0 <= i < |parts| ==> sep !in parts[i]
    ensures Split(Join(parts, sep), sep) == parts
  {
    if |parts| == 1 {
      SplitWithoutSeparator(parts[0], sep);
    } else {
      SplitJoin(parts[1..], sep);
      SplitAtSeparator(parts[0], sep, Join(parts[1..], sep));
      assert [parts[0]] + parts[1..] == parts;
    }
  }

  /** ECMAScript LineTerminator: the characters `.` does not match. */
  predicate IsLineTerminator(c: char) {
    c == '\n' || c == '\r' || c == '\U{2028}' || c == '\U{2029}'
  }

  /** ECMAScript WhiteSpace (tab, vertical tab, form feed, BOM and the Zs space separators). */
  predicate IsWhiteSpace(c: char) {
    || c == '\t' || c == '\U{000B}' || c == '\U{000C}' || c == ' '
    || c == '\U{00A0}' || c == '\U{FEFF}' || c == '\U{1680}'
    || ('\U{2000}' <= c <= '\U{200A}')
    || c == '\U{202F}' || c == '\U{205F}' || c == '\U{3000}'
  }

  /** What the regex class `\s` matches and what `trim` removes. */
  predicate IsSpace(c: char) {
    IsWhiteSpace(c) || IsLineTerminator(c)
  }

  function TrimStart(s: string): (r: string)
    ensures |r| <= |s| && r == s[|s| - |r|..]
    ensures forall i :: 0 <= i < |s| - |r| ==> IsSpace(s[i])
    ensures |r| > 0 ==> !IsSpace(r[0])
  {
    if |s| > 0 && IsSpace(s[0]) then TrimStart(s[1..]) else s
  }

  function TrimEnd(s: string): (r: string)
    ensures |r| <= |s| && r == s[..|r|]
    ensures forall i :: |r| <= i < |s| ==> IsSpace(s[i])
    ensures |r| > 0 ==> !IsSpace(r[|r| - 1])
  {
    if |s| > 0 && IsSpace(s[|s| - 1]) then TrimEnd(s[..|s| - 1]) else s
  }

  /**
   * `String.prototype.trim`: the longest slice of `s` that neither starts
   * nor ends with a space; everything cut off is space.
   */
  function Trim(s: string): (r: string)
    ensures var lead := |s| - |TrimStart(s)|;
            && lead + |r| <= |s|
            && r == s[lead..lead + |r|]
            && (forall i :: 0 <= i < lead ==> IsSpace(s[i]))
            && (forall i :: lead + |r| <= i < |s| ==> IsSpace(s[i]))
    ensures |r| > 0 ==> !IsSpace(r[0]) && !IsSpace(r[|r| - 1])
    ensures (forall i :: 0 <= i < |s| ==> IsSpace(s[i])) ==> r == ""
  {
    TrimEnd(TrimStart(s))
  }

  predicate IsQuote(c: char) {
    c == '\'' || c == '"'
  }

  /** The regex replace `/['"]/g` with the empty string: every quote character removed. */
  function RemoveQuotes(s: string): (r: string)
    ensures forall i :: 0 <= i < |r| ==> !IsQuote(r[i])
  {
    if |s| == 0 then ""
    else (if IsQuote(s[0]) then "" else [s[0]]) + RemoveQuotes(s[1..])
  }

  /** Removing the quotes keeps every other character, as often as it occurs. */
  lemma {:induction false} RemoveQuotesCounts(s: string)
    ensures forall c :: !IsQuote(c) ==> multiset(RemoveQuotes(s))[c] == multiset(s)[c]
  {
    if |s| > 0 {
      RemoveQuotesCounts(s[1..]);
      var head := if IsQuote(s[0]) then "" else [s[0]];
      assert RemoveQuotes(s) == head + RemoveQuotes(s[1..]);
      assert s == [s[0]] + s[1..];
      assert multiset(s) == multiset{s[0]} + multiset(s[1..]);
    }
  }

  /**
   * Removing the quotes works character by character, so the characters
   * that remain keep their order.
   */
  lemma {:induction false} RemoveQuotesAppend(a: string, b: string)
    ensures RemoveQuotes(a + b) == RemoveQuotes(a) + RemoveQuotes(b)
  {
    if |a| > 0 {
      RemoveQuotesAppend(a[1..], b);
      assert (a + b)[0] == a[0];
      assert (a + b)[1..] == a[1..] + b;
    } else {
      assert a + b == b;
    }
  }

  /** A string without quotes is left as it is. */
  lemma {:induction false} RemoveQuotesUnchanged(s: string)
    requires forall i :: 0 <= i < |s| ==> !IsQuote(s[i])
    ensures RemoveQuotes(s) == s
  {
    if |s| > 0 {
      assert forall i :: 0 <= i < |s[1..]| ==> s[1..][i] == s[i + 1];
      RemoveQuotesUnchanged(s[1..]);
      assert s == [s[0]] + s[1..];
    }
  }

  /** The UTF-16 code units of one character: itself, or a surrogate pair. */
  function CharUnits(c: char): (u: seq<int>)
    ensures |u| == 1 || |u| == 2
    ensures forall i :: 0 <= i < |u| ==> 0 <= u[i] < 0x10000
    ensures |u| == 1 <==> !(0xD800 <= u[0] < 0xDC00)
  {
    var cp := c as int;
    if cp < 0x10000 then [cp]
    else [0xD800 + (cp - 0x10000) / 0x400, 0xDC00 + (cp - 0x10000) % 0x400]
  }

  /** The UTF-16 code units of `s`, the units JavaScript strings are made of. */
  function CodeUnits(s: string): (u: seq<int>)
    ensures |s| <= |u| <= 2 * |s|
    ensures forall i :: 0 <= i < |u| ==> 0 <= u[i] < 0x10000
  {
    if |s| == 0 then []
    else CharUnits(s[0]) + CodeUnits(s[1..])
  }

  /** Distinct characters have distinct code units, and the units of one character are never a prefix of another's. */
  lemma CharUnitsInjective(c: char, d: char, r: seq<int>, t: seq<int>)
    requires CharUnits(c) + r == CharUnits(d) + t
    ensures c == d && r == t
  {
    var u, v := CharUnits(c), CharUnits(d);
    assert (u + r)[0] == u[0] && (v + t)[0] == v[0];
    assert |u| == |v|;
    if |u| == 2 {
      assert (u + r)[1] == u[1] && (v + t)[1] == v[1];
    }
    assert u == v by {
      assert forall i :: 0 <= i < |u| ==> u[i] == (u + r)[i] == (v + t)[i] == v[i];
    }
    assert r == (u + r)[|u|..] && t == (v + t)[|v|..];
  }

  /** The UTF-16 encoding of strings is injective. */
  lemma {:induction false} CodeUnitsInjective(a: string, b: string)
    requires CodeUnits(a) == CodeUnits(b)
    ensures a == b
  {
    if |a| > 0 && |b| > 0 {
      CharUnitsInjective(a[0], b[0], CodeUnits(a[1..]), CodeUnits(b[1..]));
      CodeUnitsInjective(a[1..], b[1..]);
      assert a == [a[0]] + a[1..] && b == [b[0]] + b[1..];
    }
  }

  /** Three-way lexicographic comparison: negative, zero or positive. */
  function LexCompare(a: seq<int>, b: seq<int>): (r: int)
    ensures -1 <= r <= 1
  {
    if |a| == 0 && |b| == 0 then 0
    else if |a| == 0 then -1
    else if |b| == 0 then 1
    else if a[0] < b[0] then -1
    else if a[0] > b[0] then 1
    else LexCompare(a[1..], b[1..])
  }

  lemma {:induction false} LexCompareZero(a: seq<int>, b: seq<int>)
    ensures LexCompare(a, b) == 0 <==> a == b
  {
    if |a| > 0 && |b| > 0 && a[0] == b[0] {
      LexCompareZero(a[1..], b[1..]);
      assert a == [a[0]] + a[1..];
      assert b == [b[0]] + b[1..];
    }
  }

  lemma {:induction false} LexCompareAntisymmetric(a: seq<int>, b: seq<int>)
    ensures LexCompare(a, b) == -LexCompare(b, a)
  {
    if |a| > 0 && |b| > 0 && a[0] == b[0] {
      LexCompareAntisymmetric(a[1..], b[1..]);
    }
  }

  lemma {:induction false} LexCompareTransitive(a: seq<int>, b: seq<int>, c: seq<int>)
    requires LexCompare(a, b) <= 0 && LexCompare(b, c) <= 0
    ensures LexCompare(a, c) <= 0
  {
    if |a| > 0 && |b| > 0 && |c| > 0 && a[0] == b[0] == c[0] {
      LexCompareTransitive(a[1..], b[1..], c[1..]);
    }
  }

  /** `a` sorts no later than `b` in `Array.prototype.sort()`'s default order. */
  predicate CodeUnitLe(a: string, b: string) {
    LexCompare(CodeUnits(a), CodeUnits(b)) <= 0
  }

  lemma CodeUnitTotal(a: string, b: string)
    ensures CodeUnitLe(a, b) || CodeUnitLe(b, a)
  {
    LexCompareAntisymmetric(CodeUnits(a), CodeUnits(b));
  }

  /** Two strings that each sort no later than the other are equal. */
  lemma CodeUnitAntisymmetric(a: string, b: string)
    requires CodeUnitLe(a, b) && CodeUnitLe(b, a)
    ensures a == b
  {
    LexCompareAntisymmetric(CodeUnits(a), CodeUnits(b));
    LexCompareZero(CodeUnits(a), CodeUnits(b));
    CodeUnitsInjective(a, b);
  }

  lemma CodeUnitTransitive(a: string, b: string, c: string)
    requires CodeUnitLe(a, b) && CodeUnitLe(b, c)
    ensures CodeUnitLe(a, c)
  {
    LexCompareTransitive(CodeUnits(a), CodeUnits(b), CodeUnits(c));
  }
}
