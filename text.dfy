/**
 * The parts of Go's `strings` and `fmt` packages that the subsetter relies on,
 * over strings as sequences of Unicode characters.
 */
module Text {

  import opened Outcomes

  /** `unicode.IsSpace`, the test `strings.TrimSpace` applies to every character. */
  predicate IsSpace(c: char) {
    || c == ' ' || c == '\t' || c == '\n' || c == '\r' || c == '\U{000B}' || c == '\U{000C}'
    || c == '\U{0085}' || c == '\U{00A0}' || c == '\U{1680}'
    || ('\U{2000}' <= c <= '\U{200A}')
    || c == '\U{2028}' || c == '\U{2029}' || c == '\U{202F}' || c == '\U{205F}' || c == '\U{3000}'
  }

  /** The number of white-space characters `s` starts with. */
  function LeadingSpaces(s: string): (n: nat)
    ensures n <= |s|
    ensures forall i :: 0 <= i < n ==> IsSpace(s[i])
    ensures n == |s| || !IsSpace(s[n])
    decreases |s|
  {
    if |s| > 0 && IsSpace(s[0]) then 1 + LeadingSpaces(s[1..]) else 0
  }

  /** The length of `s` without the white space it ends with. */
  function TrailingStart(s: string): (n: nat)
    ensures n <= |s|
    ensures forall i :: n <= i < |s| ==> IsSpace(s[i])
    ensures n == 0 || !IsSpace(s[n - 1])
    decreases |s|
  {
    if |s| > 0 && IsSpace(s[|s| - 1]) then TrailingStart(s[..|s| - 1]) else |s|
  }

  /** Drops the leading white space: what is left is a suffix of `s`. */
  function TrimLeft(s: string): (r: string)
    ensures |r| <= |s| && r == s[|s| - |r|..]
    ensures forall i :: 0 <= i < |s| - |r| ==> IsSpace(s[i])
    ensures r == [] || !IsSpace(r[0])
  {
    s[LeadingSpaces(s)..]
  }

  /** Drops the trailing white space: what is left is a prefix of `s`. */
  function TrimRight(s: string): (r: string)
    ensures |r| <= |s| && r == s[..|r|]
    ensures forall i :: |r| <= i < |s| ==> IsSpace(s[i])
    ensures r == [] || !IsSpace(r[|r| - 1])
  {
    s[..TrailingStart(s)]
  }

  /** `strings.TrimSpace`: white space is removed at both ends and nowhere else. */
  function TrimSpace(s: string): (r: string)
    ensures r == [] || (!IsSpace(r[0]) && !IsSpace(r[|r| - 1]))
    ensures (s == [] || (!IsSpace(s[0]) && !IsSpace(s[|s| - 1]))) ==> r == s
  {
    TrimRight(TrimLeft(s))
  }

  /** `r` sits in `s` from position `a`, with only white space before and after it. */
  ghost predicate TrimmedAt(s: string, a: nat, r: string) {
    a + |r| <= |s| && s[a..a + |r|] == r &&
    (forall i :: 0 <= i < a ==> IsSpace(s[i])) &&
    (forall i :: a + |r| <= i < |s| ==> IsSpace(s[i]))
  }

  /**
   * Trimming keeps the contiguous stretch of the input that starts after the
   * leading white space and stops before the trailing white space, so no
   * character is added.
   */
  lemma TrimSpaceInside(s: string)
    ensures TrimmedAt(s, LeadingSpaces(s), TrimSpace(s))
    ensures forall c :: c in TrimSpace(s) ==> c in s
  {
    var n := LeadingSpaces(s);
    var l := TrimLeft(s);
    var r := TrimRight(l);
    assert l == s[n..];
    assert s[n..n + |r|] == r by {
      assert r == l[..|r|];
    }
    forall i | n + |r| <= i < |s|
      ensures IsSpace(s[i])
    {
      assert s[i] == l[i - n];
    }
    forall c | c in r
      ensures c in s
    {
      var k :| 0 <= k < |r| && r[k] == c;
      assert s[n + k] == c;
    }
  }

  /** A leading white-space character is trimmed away. */
  lemma TrimSpaceLeading(s: string)
    requires s != [] && IsSpace(s[0])
    ensures TrimSpace(s) == TrimSpace(s[1..])
  {
  }

  lemma AppendAssociates<T>(a: seq<T>, b: seq<T>, c: seq<T>)
    ensures (a + b) + c == a + (b + c)
  {
  }

  /** `strings.HasPrefix`. */
  predicate HasPrefix(s: string, prefix: string) {
    |prefix| <= |s| && s[..|prefix|] == prefix
  }

  /** `strings.Join`. */
  function Join(parts: seq<string>, sep: string): string {
    if |parts| == 0 then ""
    else if |parts| == 1 then parts[0]
    else parts[0] + sep + Join(parts[1..], sep)
  }

  /** Joining one more part adds the separator and the part at the end. */
  lemma {:induction false} JoinAppend(parts: seq<string>, part: string, sep: string)
    requires parts != []
    ensures Join(parts + [part], sep) == Join(parts, sep) + sep + part
  {
    if |parts| > 1 {
      assert (parts + [part])[1..] == parts[1..] + [part];
      JoinAppend(parts[1..], part, sep);
    }
  }

  /** The parts glued together with no separator. */
  function Concat(parts: seq<string>): string {
    if |parts| == 0 then "" else parts[0] + Concat(parts[1..])
  }

  /** `strings.Index` for a one-character separator: the first position of `c`. */
  function IndexOf(s: string, c: char): (r: Option<nat>)
    ensures r.None? <==> c !in s
    ensures r.Some? ==> r.value < |s| && s[r.value] == c && c !in s[..r.value]
  {
    if |s| == 0 then None
    else if s[0] == c then Some(0)
    else match IndexOf(s[1..], c)
      case None => None
      case Some(i) => Some(i + 1)
  }

  /**
   * `strings.SplitN(s, sep, 2)`: cut at the first separator only. The parts,
   * joined back with the separator, give `s` again.
   */
  function SplitFirst(s: string, sep: char): (r: seq<string>)
    ensures 1 <= |r| <= 2
    ensures sep !in r[0]
    ensures |r| == 1 <==> sep !in s
    ensures Join(r, [sep]) == s
  {
    match IndexOf(s, sep)
    case None => [s]
    case Some(i) =>
      assert s == s[..i] + [sep] + s[i + 1..];
      [s[..i], s[i + 1..]]
  }

  /** One more leading part that ends with its only separator keeps the shape `SplitAfter` promises. */
  lemma PrependCutPart(head: string, rest: seq<string>, sep: char)
    requires |head| > 0 && head[|head| - 1] == sep && sep !in head[..|head| - 1]
    requires |rest| >= 1 && sep !in rest[|rest| - 1]
    requires forall k :: 0 <= k < |rest| - 1 ==>
      |rest[k]| > 0 && rest[k][|rest[k]| - 1] == sep && sep !in rest[k][..|rest[k]| - 1]
    ensures Concat([head] + rest) == head + Concat(rest)
    ensures ([head] + rest)[|rest|] == rest[|rest| - 1]
    ensures forall k :: 0 <= k < |rest| ==>
      |([head] + rest)[k]| > 0 && ([head] + rest)[k][|([head] + rest)[k]| - 1] == sep &&
      sep !in ([head] + rest)[k][..|([head] + rest)[k]| - 1]
  {
    var r := [head] + rest;
    assert r[1..] == rest;
    forall k | 0 <= k < |rest|
      ensures |r[k]| > 0 && r[k][|r[k]| - 1] == sep && sep !in r[k][..|r[k]| - 1]
    {
      if k > 0 {
        assert r[k] == rest[k - 1];
      }
    }
  }

  /**
   * `strings.SplitAfter(s, sep)`: cut after every separator, keeping it. Every
   * part but the last ends with the one separator it holds; the last holds none;
   * together they spell `s`.
   */
  function SplitAfter(s: string, sep: char): (r: seq<string>)
    ensures |r| >= 1
    ensures Concat(r) == s
    ensures forall k :: 0 <= k < |r| - 1 ==>
      |r[k]| > 0 && r[k][|r[k]| - 1] == sep && sep !in r[k][..|r[k]| - 1]
    ensures sep !in r[|r| - 1]
    decreases |s|
  {
    match IndexOf(s, sep)
    case None => [s]
    case Some(i) =>
      var head, rest := s[..i + 1], SplitAfter(s[i + 1..], sep);
      assert head[..|head| - 1] == s[..i];
      assert s == head + s[i + 1..];
      PrependCutPart(head, rest, sep);
      [head] + rest
  }

  /** `QuoteString` turns a key value into an SQL literal; it is not part of this model. */
  const QuoteString: string -> string

  /** Every item quoted, in input order. */
  function QuoteAll(items: seq<string>): (r: seq<string>)
    ensures |r| == |items|
    ensures forall i :: 0 <= i < |items| ==> r[i] == QuoteString(items[i])
  {
    seq(|items|, i requires 0 <= i < |items| => QuoteString(items[i]))
  }

  /** The body of an `IN (...)` list: the quoted items joined by ",". */
  function QuotedList(items: seq<string>): string {
    Join(QuoteAll(items), ",")
  }

  function DigitChar(d: nat): char
    requires d < 10
  {
    "0123456789"[d]
  }

  function NatToString(n: nat): string
    decreases n
  {
    if n < 10 then [DigitChar(n)] else NatToString(n / 10) + [DigitChar(n % 10)]
  }

  /** `fmt.Sprintf("%d", i)`. */
  function IntToString(i: int): string {
    if i < 0 then "-" + NatToString(-i) else NatToString(i)
  }
}
