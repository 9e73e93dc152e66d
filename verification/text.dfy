/** String primitives the source takes from JavaScript: `toLowerCase`, `includes`,
    `split`, `trim` and the global `replace` of newlines. Strings are `seq<char>`. */
module Text {

  /** Lower-casing of one character, restricted to ASCII letters. */
  function LowerChar(c: char): char {
    if 'A' <= c <= 'Z' then (c as int + 32) as char else c
  }

  predicate IsUpperAscii(c: char) {
    'A' <= c <= 'Z'
  }

  /** `String.prototype.toLowerCase` on the ASCII range: same length, every letter lowered, nothing else touched. */
  function Lower(s: string): (r: string)
    ensures |r| == |s|
    ensures forall i :: 0 <= i < |s| ==> !IsUpperAscii(r[i])
    ensures forall i :: 0 <= i < |s| && !IsUpperAscii(s[i]) ==> r[i] == s[i]
    ensures forall i :: 0 <= i < |s| && IsUpperAscii(s[i]) ==> r[i] as int == s[i] as int + 32
  {
    seq(|s|, i requires 0 <= i < |s| => LowerChar(s[i]))
  }

  lemma LowerIdempotent(s: string)
    ensures Lower(Lower(s)) == Lower(s)
  {
  }

  /** `needle` occurs in `hay` starting at position `i`. */
  predicate OccursAt(hay: string, needle: string, i: int) {
    0 <= i && i + |needle| <= |hay| && hay[i..i + |needle|] == needle
  }

  /** `String.prototype.includes`: the empty needle occurs in every text, every text occurs
      in itself, and no needle occurs in a shorter text. */
  predicate Contains(hay: string, needle: string): (r: bool)
    ensures needle == [] ==> r
    ensures hay == needle ==> r
    ensures r ==> |needle| <= |hay|
  {
    assert needle == [] || hay == needle ==> OccursAt(hay, needle, 0);
    exists i | 0 <= i <= |hay| - |needle| :: OccursAt(hay, needle, i)
  }

  // ---------------------------------------------------------------- split / join

  /** The inverse of `Split`: pieces glued back with `sep` between consecutive ones. */
  function Join(parts: seq<string>, sep: char): string
  {
    if |parts| == 0 then ""
    else if |parts| == 1 then parts[0]
    else parts[0] + [sep] + Join(parts[1..], sep)
  }

  /** Position of the first occurrence of `c` in `s`. */
  function IndexOf(s: string, c: char): (i: nat)
    requires c in s
    ensures i < |s| && s[i] == c && c !in s[..i]
  {
    if s[0] == c then 0
    else
      var i := 1 + IndexOf(s[1..], c);
      assert s[..i] == [s[0]] + s[1..][..i - 1];
      i
  }

  /** `String.prototype.split` with a one-character separator: one more piece than
      there are separators (so `""` splits into `[""]`), no piece holds the separator,
      and joining the pieces gives back the input. */
  function Split(s: string, sep: char): (parts: seq<string>)
    ensures |parts| == multiset(s)[sep] + 1
    ensures forall k :: 0 <= k < |parts| ==> sep !in parts[k]
    ensures Join(parts, sep) == s
    decreases |s|
  {
    if sep !in s then
      assert multiset(s)[sep] == 0;
      [s]
    else
      var i := IndexOf(s, sep);
      var rest := Split(s[i + 1..], sep);
      SplitStep(s, sep, i, rest);
      [s[..i]] + rest
  }

  lemma SplitStep(s: string, sep: char, i: nat, rest: seq<string>)
    requires i < |s| && s[i] == sep && sep !in s[..i]
    requires |rest| == multiset(s[i + 1..])[sep] + 1
    requires Join(rest, sep) == s[i + 1..]
    ensures |[s[..i]] + rest| == multiset(s)[sep] + 1
    ensures Join([s[..i]] + rest, sep) == s
  {
    CountAroundSeparator(s, sep, i);
    JoinCons(s[..i], rest, sep);
    assert s == s[..i] + [sep] + s[i + 1..];
  }

  lemma CountAroundSeparator(s: string, sep: char, i: nat)
    requires i < |s| && s[i] == sep && sep !in s[..i]
    ensures multiset(s)[sep] == multiset(s[i + 1..])[sep] + 1
  {
    assert s == s[..i] + [sep] + s[i + 1..];
    assert multiset(s) == multiset(s[..i]) + multiset{sep} + multiset(s[i + 1..]);
  }

  lemma JoinCons(head: string, rest: seq<string>, sep: char)
    requires |rest| >= 1
    ensures Join([head] + rest, sep) == head + [sep] + Join(rest, sep)
  {
    assert ([head] + rest)[1..] == rest;
  }

  /** Splitting a join of separator-free pieces recovers the pieces. */
  lemma {:induction false} SplitJoin(parts: seq<string>, sep: char)
    requires |parts| >= 1
    requires forall k :: 0 <= k < |parts| ==> sep !in parts[k]
    ensures Split(Join(parts, sep), sep) == parts
  {
    if |parts| >= 2 {
      assert Join(parts, sep) == parts[0] + [sep] + Join(parts[1..], sep);
      assert forall k :: 0 <= k < |parts[1..]| ==> parts[1..][k] == parts[k + 1];
      SplitJoin(parts[1..], sep);
      SplitPrefix(parts[0], Join(parts[1..], sep), sep);
    }
  }

  /** A separator-free head followed by the separator becomes the first piece. */
  lemma SplitPrefix(head: string, tail: string, sep: char)
    requires sep !in head
    ensures Split(head + [sep] + tail, sep) == [head] + Split(tail, sep)
  {
    var s := head + [sep] + tail;
    assert s[..|head|] == head && s[|head|] == sep;
    var i := IndexOf(s, sep);
    assert forall k :: 0 <= k < |head| ==> s[k] == head[k];
    assert forall k :: 0 <= k < i ==> s[..i][k] == s[k];
    assert i == |head|;
    assert s[i + 1..] == tail;
  }

  // ---------------------------------------------------------------- trim

  /** The characters `String.prototype.trim` removes: ECMAScript WhiteSpace and LineTerminator. */
  predicate IsWhitespace(c: char) {
    var n := c as int;
    n == 0x09 || n == 0x0A || n == 0x0B || n == 0x0C || n == 0x0D || n == 0x20 || n == 0xA0
    || n == 0x1680 || (0x2000 <= n <= 0x200A) || n == 0x2028 || n == 0x2029 || n == 0x202F
    || n == 0x205F || n == 0x3000 || n == 0xFEFF
  }

  /** Every character of `s` in positions `lo` up to (not including) `hi` is whitespace. */
  predicate WhitespaceBetween(s: string, lo: int, hi: int) {
    forall k :: lo <= k < hi && 0 <= k < |s| ==> IsWhitespace(s[k])
  }

  /** Every character of `s` is whitespace. */
  predicate AllWhitespace(s: string) {
    WhitespaceBetween(s, 0, |s|)
  }

  /** Number of whitespace characters `String.prototype.trim` drops at the front. */
  function LeadingWhitespace(s: string): (n: nat)
    ensures n <= |s|
    ensures WhitespaceBetween(s, 0, n)
    ensures n < |s| ==> !IsWhitespace(s[n])
  {
    if |s| > 0 && IsWhitespace(s[0]) then
      var n := 1 + LeadingWhitespace(s[1..]);
      assert forall k :: 1 <= k < n ==> s[k] == s[1..][k - 1];
      n
    else 0
  }

  /** End of the text once the whitespace `String.prototype.trim` drops at the back of `s[lo..hi]` is gone. */
  function TrailingStart(s: string, lo: nat, hi: nat): (j: nat)
    requires lo <= hi <= |s|
    ensures lo <= j <= hi
    ensures WhitespaceBetween(s, j, hi)
    ensures j > lo ==> !IsWhitespace(s[j - 1])
    decreases hi
  {
    if hi > lo && IsWhitespace(s[hi - 1]) then TrailingStart(s, lo, hi - 1) else hi
  }

  /** `r` is the infix of `s` at `i` with nothing but whitespace around it. */
  predicate TrimmedAt(s: string, r: string, i: int) {
    0 <= i && i + |r| <= |s| && s[i..i + |r|] == r
    && WhitespaceBetween(s, 0, i) && WhitespaceBetween(s, i + |r|, |s|)
  }

  /** `String.prototype.trim`: the infix left once surrounding whitespace is gone;
      it is empty exactly for all-whitespace input and otherwise neither starts nor ends with whitespace. */
  function Trim(s: string): (r: string)
    ensures exists i :: TrimmedAt(s, r, i)
    ensures |r| > 0 ==> !IsWhitespace(r[0]) && !IsWhitespace(r[|r| - 1])
    ensures |r| == 0 <==> AllWhitespace(s)
  {
    var i := LeadingWhitespace(s);
    var j := TrailingStart(s, i, |s|);
    assert TrimmedAt(s, s[i..j], i);
    s[i..j]
  }

  /** Trimming twice is trimming once. */
  lemma TrimIdempotent(s: string)
    ensures Trim(Trim(s)) == Trim(s)
  {
    var t := Trim(s);
    if |t| > 0 {
      assert LeadingWhitespace(t) == 0;
      assert TrailingStart(t, 0, |t|) == |t|;
      assert t[0..|t|] == t;
    }
  }

  // ---------------------------------------------------------------- newline rewrite

  const LineBreakTag: string := "<br>"

  /** `s.replace(/\n/g, '<br>')`. */
  function ReplaceNewlines(s: string): (r: string)
    ensures '\n' !in r
  {
    if |s| == 0 then ""
    else
      (if s[0] == '\n' then LineBreakTag else [s[0]]) + ReplaceNewlines(s[1..])
  }

  /** Each newline grows into the four characters of the tag; everything else is kept. */
  lemma {:induction false} ReplaceNewlinesLength(s: string)
    ensures |ReplaceNewlines(s)| == |s| + 3 * multiset(s)['\n']
  {
    if |s| > 0 {
      ReplaceNewlinesLength(s[1..]);
      assert s == [s[0]] + s[1..];
      assert multiset(s) == multiset{s[0]} + multiset(s[1..]);
    }
  }

  /** The rewrite works piecewise: it distributes over concatenation. */
  lemma {:induction false} ReplaceNewlinesConcat(a: string, b: string)
    ensures ReplaceNewlines(a + b) == ReplaceNewlines(a) + ReplaceNewlines(b)
  {
    if |a| > 0 {
      var piece := if a[0] == '\n' then LineBreakTag else [a[0]];
      assert (a + b)[0] == a[0] && (a + b)[1..] == a[1..] + b;
      assert ReplaceNewlines(a + b) == piece + ReplaceNewlines(a[1..] + b);
      assert ReplaceNewlines(a) == piece + ReplaceNewlines(a[1..]);
      ReplaceNewlinesConcat(a[1..], b);
    } else {
      assert a + b == b;
    }
  }

  /** A lone newline becomes exactly the line-break tag. */
  lemma ReplaceNewlineIsTag()
    ensures ReplaceNewlines("\n") == LineBreakTag
  {
  }

  /** Text without newlines is left untouched. */
  lemma {:induction false} ReplaceNewlinesNoNewline(s: string)
    requires '\n' !in s
    ensures ReplaceNewlines(s) == s
  {
    if |s| > 0 {
      ReplaceNewlinesNoNewline(s[1..]);
    }
  }
}
