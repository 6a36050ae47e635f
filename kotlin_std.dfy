/** The parts of the Kotlin standard library the reader relies on: nullable
    values, thrown exceptions, `Char.isWhitespace`, `trim`/`trimEnd`/`isBlank`,
    `joinToString`, single-character `replace`, and `StringBuilder`. */
module KotlinStd {

  /** A Kotlin nullable value `T?`. */
  datatype Option<+T> = None | Some(value: T) {
    /** Kotlin's `?: default` (and `orEmpty()` with `default == ""`). */
    function GetOr(default: T): T {
      match this
      case Some(v) => v
      case None => default
    }
  }

  /** A call that either returns a value or throws; which exception is thrown
      is not modelled. */
  datatype Outcome<+T> = Ok(value: T) | Thrown

  /** Kotlin's `Char.isWhitespace()` on the JVM, which is
      `Character.isWhitespace(c) || Character.isSpaceChar(c)`: the controls
      U+0009..U+000D and U+001C..U+001F, and the Unicode space, line and
      paragraph separators. */
  predicate IsWs(c: char) {
    var n := c as int;
    (0x09 <= n <= 0x0D) || (0x1C <= n <= 0x20) || n == 0xA0 || n == 0x1680
    || (0x2000 <= n <= 0x200A) || n == 0x2028 || n == 0x2029 || n == 0x202F
    || n == 0x205F || n == 0x3000
  }

  /** Kotlin's `isBlank()`: every character is whitespace (the empty string is blank). */
  predicate IsBlank(s: string) {
    forall i | 0 <= i < |s| :: IsWs(s[i])
  }

  /** Kotlin's `trimEnd()`: whitespace removed from the end. */
  function TrimEnd(s: string): string
  {
    if s == [] then []
    else if IsWs(s[|s| - 1]) then TrimEnd(s[..|s| - 1])
    else s
  }

  /** `trimEnd()` gives the longest prefix that does not end in whitespace. */
  lemma {:induction false} TrimEndSpec(s: string)
    ensures TrimEnd(s) <= s
    ensures TrimEnd(s) == [] || !IsWs(TrimEnd(s)[|TrimEnd(s)| - 1])
    ensures IsBlank(s[|TrimEnd(s)|..])
  {
    if s != [] && IsWs(s[|s| - 1]) {
      var init := s[..|s| - 1];
      TrimEndSpec(init);
      var r := TrimEnd(init);
      assert s[|r|..] == init[|r|..] + [s[|s| - 1]];
    }
  }

  /** Kotlin's `trimStart()`: whitespace removed from the start. */
  function TrimStart(s: string): string
  {
    if s == [] then []
    else if IsWs(s[0]) then TrimStart(s[1..])
    else s
  }

  /** `trimStart()` gives the longest suffix that does not start with whitespace. */
  lemma {:induction false} TrimStartSpec(s: string)
    ensures |TrimStart(s)| <= |s| && TrimStart(s) == s[|s| - |TrimStart(s)|..]
    ensures TrimStart(s) == [] || !IsWs(TrimStart(s)[0])
    ensures IsBlank(s[..|s| - |TrimStart(s)|])
  {
    if s != [] && IsWs(s[0]) {
      TrimStartSpec(s[1..]);
      var r := TrimStart(s[1..]);
      assert s[..|s| - |r|] == [s[0]] + s[1..][..|s| - 1 - |r|];
    }
  }

  /** Kotlin's `trim()`: whitespace removed from both ends. */
  function Trim(s: string): string
  {
    TrimStart(TrimEnd(s))
  }

  /** `trim()` leaves no whitespace at either end, and nothing at all exactly
      when the string is blank. */
  lemma TrimSpec(s: string)
    ensures Trim(s) == [] || (!IsWs(Trim(s)[0]) && !IsWs(Trim(s)[|Trim(s)| - 1]))
    ensures Trim(s) == [] <==> IsBlank(s)
  {
    var e := TrimEnd(s);
    var r := TrimStart(e);
    TrimEndSpec(s);
    TrimStartSpec(e);
    assert r != [] ==> r[|r| - 1] == e[|e| - 1];
    assert r == [] ==> IsBlank(e) by {
      if r == [] { assert e[..|e| - |r|] == e; }
    }
    assert s == e + s[|e|..];
    BlankConcat(e, s[|e|..]);
  }

  /** Everything in a blank string is blank, whichever way it is trimmed. */
  lemma {:induction false} BlankIffTrimEndEmpty(s: string)
    ensures IsBlank(s) <==> TrimEnd(s) == []
    ensures IsBlank(TrimEnd(s)) <==> IsBlank(s)
  {
    TrimEndSpec(s);
    var r := TrimEnd(s);
    if r != [] {
      assert s[|r| - 1] == r[|r| - 1];
    }
    assert s == r + s[|r|..];
    BlankConcat(r, s[|r|..]);
  }

  /** `trimEnd()` removes exactly a blank tail behind a non-whitespace end. */
  lemma {:induction false} TrimEndBlankSuffix(x: string, w: string)
    requires IsBlank(w)
    requires x == [] || !IsWs(x[|x| - 1])
    ensures TrimEnd(x + w) == x
  {
    if w == [] {
      assert x + w == x;
    } else {
      var s := x + w;
      assert IsWs(s[|s| - 1]) by { assert s[|s| - 1] == w[|w| - 1]; }
      assert s[..|s| - 1] == x + w[..|w| - 1];
      TrimEndBlankSuffix(x, w[..|w| - 1]);
    }
  }

  /** `trimStart()` removes exactly a blank head in front of a non-whitespace start. */
  lemma {:induction false} TrimStartBlankPrefix(w: string, x: string)
    requires IsBlank(w)
    requires x == [] || !IsWs(x[0])
    ensures TrimStart(w + x) == x
  {
    if w == [] {
      assert w + x == x;
    } else {
      var s := w + x;
      assert s[0] == w[0];
      assert s[1..] == w[1..] + x;
      TrimStartBlankPrefix(w[1..], x);
    }
  }

  /** `trim()` removes exactly a blank head and a blank tail around a text
      with no whitespace at either end. */
  lemma TrimBlankEnds(head: string, x: string, tail: string)
    requires IsBlank(head) && IsBlank(tail)
    requires x == [] || (!IsWs(x[0]) && !IsWs(x[|x| - 1]))
    ensures Trim(head + x + tail) == x
  {
    if x == [] {
      assert head + x + tail == head + tail;
      BlankConcat(head, tail);
      TrimSpec(head + tail);
    } else {
      var hx := head + x;
      assert hx[|hx| - 1] == x[|x| - 1];
      TrimEndBlankSuffix(hx, tail);
      TrimStartBlankPrefix(head, x);
    }
  }

  /** Trimming never introduces a character. */
  lemma TrimExcludes(s: string, c: char)
    requires c !in s
    ensures c !in Trim(s)
  {
    var e := TrimEnd(s);
    TrimEndSpec(s);
    assert e == s[..|e|];
    var r := TrimStart(e);
    TrimStartSpec(e);
    assert r == e[|e| - |r|..];
  }

  /** Kotlin's `joinToString(sep)`: the separator goes between consecutive parts. */
  function JoinToString(parts: seq<string>, sep: string): string
  {
    if |parts| == 0 then []
    else if |parts| == 1 then parts[0]
    else parts[0] + sep + JoinToString(parts[1..], sep)
  }

  /** Joining two parts puts one separator between them. */
  lemma JoinTwo(x: string, y: string, sep: string)
    ensures JoinToString([x, y], sep) == x + sep + y
  {
    assert [x, y][1..] == [y];
  }

  /** Joining three parts puts one separator between each neighbouring pair. */
  lemma JoinThree(x: string, y: string, z: string, sep: string)
    ensures JoinToString([x, y, z], sep) == x + sep + y + sep + z
  {
    assert [x, y, z][1..] == [y, z];
    JoinTwo(y, z, sep);
  }

  /** Kotlin's `replace(c.toString(), replacement)` for a one-character pattern:
      every occurrence of `c`, left to right, becomes `replacement`. */
  function ReplaceChar(s: string, c: char, replacement: string): string
  {
    if s == [] then []
    else (if s[0] == c then replacement else [s[0]]) + ReplaceChar(s[1..], c, replacement)
  }

  /** No occurrence of `c` survives unless the replacement brings it back. */
  lemma {:induction false} ReplaceCharRemoves(s: string, c: char, replacement: string)
    requires c !in replacement
    ensures c !in ReplaceChar(s, c, replacement)
  {
    if s != [] {
      ReplaceCharRemoves(s[1..], c, replacement);
    }
  }

  lemma {:induction false} ReplaceCharAppend(a: string, b: string, c: char, replacement: string)
    ensures ReplaceChar(a + b, c, replacement) == ReplaceChar(a, c, replacement) + ReplaceChar(b, c, replacement)
  {
    if a != [] {
      assert (a + b)[0] == a[0] && (a + b)[1..] == a[1..] + b;
      ReplaceCharAppend(a[1..], b, c, replacement);
    } else {
      assert a + b == b;
    }
  }

  lemma {:induction false} ReplaceCharAbsent(s: string, c: char, replacement: string)
    requires c !in s
    ensures ReplaceChar(s, c, replacement) == s
  {
    if s != [] {
      ReplaceCharAbsent(s[1..], c, replacement);
    }
  }

  /** A character that is neither in the text nor in the replacement does not
      appear in the result. */
  lemma {:induction false} ReplaceCharExcludes(s: string, c: char, replacement: string, d: char)
    requires d !in s && d !in replacement
    ensures d !in ReplaceChar(s, c, replacement)
  {
    if s != [] {
      assert s[0] != d;
      ReplaceCharExcludes(s[1..], c, replacement, d);
    }
  }

  /** Replacing a whitespace character by non-empty whitespace neither makes
      a blank string non-blank nor the other way round. */
  lemma {:induction false} ReplaceCharBlank(s: string, c: char, replacement: string)
    requires IsWs(c) && IsBlank(replacement)
    ensures IsBlank(ReplaceChar(s, c, replacement)) <==> IsBlank(s)
  {
    if s != [] {
      ReplaceCharBlank(s[1..], c, replacement);
      var head := if s[0] == c then replacement else [s[0]];
      var r := ReplaceChar(s, c, replacement);
      assert r == head + ReplaceChar(s[1..], c, replacement);
      assert IsBlank(s) <==> IsWs(s[0]) && IsBlank(s[1..]) by {
        if IsWs(s[0]) && IsBlank(s[1..]) {
          forall i | 0 <= i < |s| ensures IsWs(s[i]) {
            if i > 0 { assert s[i] == s[1..][i - 1]; }
          }
        }
      }
      BlankConcat(head, ReplaceChar(s[1..], c, replacement));
    }
  }

  lemma BlankConcat(a: string, b: string)
    ensures IsBlank(a + b) <==> IsBlank(a) && IsBlank(b)
  {
    if IsBlank(a) && IsBlank(b) {
      forall i | 0 <= i < |a + b| ensures IsWs((a + b)[i]) {
        if i >= |a| { assert (a + b)[i] == b[i - |a|]; }
      }
    }
    if IsBlank(a + b) {
      forall i | 0 <= i < |a| ensures IsWs(a[i]) {
        assert (a + b)[i] == a[i];
      }
      forall i | 0 <= i < |b| ensures IsWs(b[i]) {
        assert (a + b)[|a| + i] == b[i];
      }
    }
  }

  /** Joining with a blank separator is blank exactly when every part is. */
  lemma {:induction false} JoinBlank(parts: seq<string>, sep: string)
    requires IsBlank(sep)
    ensures IsBlank(JoinToString(parts, sep)) <==> forall k | 0 <= k < |parts| :: IsBlank(parts[k])
  {
    if |parts| > 1 {
      JoinBlank(parts[1..], sep);
      BlankConcat(parts[0], sep);
      BlankConcat(parts[0] + sep, JoinToString(parts[1..], sep));
      if forall k | 0 <= k < |parts[1..]| :: IsBlank(parts[1..][k]) {
        if IsBlank(parts[0]) {
          forall k | 0 <= k < |parts| ensures IsBlank(parts[k]) {
            if k > 0 { assert parts[k] == parts[1..][k - 1]; }
          }
        }
      }
    }
  }

  /** Number of occurrences of `c` in `s`. */
  function CountChar(c: char, s: string): (n: nat)
    ensures n <= |s|
    ensures n == 0 <==> c !in s
  {
    if s == [] then 0
    else (if s[0] == c then 1 else 0) + CountChar(c, s[1..])
  }

  lemma {:induction false} CountCharAppend(c: char, a: string, b: string)
    ensures CountChar(c, a + b) == CountChar(c, a) + CountChar(c, b)
  {
    if a != [] {
      assert (a + b)[0] == a[0] && (a + b)[1..] == a[1..] + b;
      CountCharAppend(c, a[1..], b);
    } else {
      assert a + b == b;
    }
  }

  /** Joining parts that do not contain `c` with `c` as separator puts exactly
      one `c` between consecutive parts and none anywhere else. */
  lemma {:induction false} JoinCount(parts: seq<string>, c: char)
    requires parts != []
    requires forall k | 0 <= k < |parts| :: c !in parts[k]
    ensures CountChar(c, JoinToString(parts, [c])) == |parts| - 1
  {
    if |parts| > 1 {
      JoinCount(parts[1..], c);
      CountCharAppend(c, parts[0] + [c], JoinToString(parts[1..], [c]));
      CountCharAppend(c, parts[0], [c]);
    }
  }

  /** Distributes one multiplication; kept apart because inside a larger
      proof the solver does not find this step. */
  lemma MulSucc(a: nat, n: nat)
    ensures (a + 1) * n == a * n + n
  {
  }

  /** Joining parts that each hold `n` copies of `c`, with a separator free of
      `c`, gives `|parts| * n` copies. */
  lemma {:induction false} JoinCountUniform(parts: seq<string>, sep: string, c: char, n: nat)
    requires c !in sep
    requires forall k | 0 <= k < |parts| :: CountChar(c, parts[k]) == n
    ensures CountChar(c, JoinToString(parts, sep)) == |parts| * n
  {
    if |parts| > 1 {
      var tail := parts[1..];
      JoinCountUniform(tail, sep, c, n);
      CountCharAppend(c, parts[0] + sep, JoinToString(tail, sep));
      CountCharAppend(c, parts[0], sep);
      assert CountChar(c, parts[0]) == n;
      MulSucc(|tail|, n);
    }
  }

  /** Appending a part to a non-empty list appends the separator and the part. */
  lemma {:induction false} JoinSnoc(parts: seq<string>, x: string, sep: string)
    requires parts != []
    ensures JoinToString(parts + [x], sep) == JoinToString(parts, sep) + sep + x
  {
    var all := parts + [x];
    assert all[0] == parts[0];
    assert all[1..] == parts[1..] + [x];
    if |parts| > 1 {
      JoinSnoc(parts[1..], x, sep);
    } else {
      assert all[1..] == [x];
    }
  }

  /** A join of non-empty parts is empty only when there are no parts, starts
      with the first part's first character and ends with the last part's
      last character. */
  lemma {:induction false} JoinEnds(parts: seq<string>, sep: string)
    requires forall k | 0 <= k < |parts| :: parts[k] != []
    ensures JoinToString(parts, sep) == [] <==> parts == []
    ensures parts != [] ==> JoinToString(parts, sep)[0] == parts[0][0]
    ensures parts != [] ==> JoinToString(parts, sep)[|JoinToString(parts, sep)| - 1] == parts[|parts| - 1][|parts[|parts| - 1]| - 1]
  {
    if |parts| > 1 {
      JoinEnds(parts[1..], sep);
      var j := JoinToString(parts, sep);
      var t := JoinToString(parts[1..], sep);
      assert j == parts[0] + sep + t;
      assert j[|j| - 1] == t[|t| - 1];
    }
  }

  /** A separator-free join is separator-free. */
  lemma {:induction false} JoinExcludes(parts: seq<string>, sep: string, c: char)
    requires c !in sep
    requires forall k | 0 <= k < |parts| :: c !in parts[k]
    ensures c !in JoinToString(parts, sep)
  {
    if |parts| > 1 {
      JoinExcludes(parts[1..], sep, c);
    }
  }

  /** Splitting at every `c` (a reference for what `joinToString` with a
      one-character separator can be undone by). */
  function SplitOn(s: string, c: char): (r: seq<string>)
    ensures r != []
  {
    if s == [] then [[]]
    else
      var rest := SplitOn(s[1..], c);
      if s[0] == c then [[]] + rest
      else [[s[0]] + rest[0]] + rest[1..]
  }

  lemma {:induction false} SplitOnFree(p: string, c: char, tail: string)
    requires c !in p
    ensures SplitOn(p + tail, c) == [p + SplitOn(tail, c)[0]] + SplitOn(tail, c)[1..]
  {
    if p != [] {
      assert (p + tail)[0] == p[0] && (p + tail)[1..] == p[1..] + tail;
      SplitOnFree(p[1..], c, tail);
      assert [p[0]] + (p[1..] + SplitOn(tail, c)[0]) == p + SplitOn(tail, c)[0];
    } else {
      var parts := SplitOn(tail, c);
      assert p + tail == tail && p + parts[0] == parts[0];
      assert parts == [parts[0]] + parts[1..];
    }
  }

  /** Splitting undoes joining, provided no part contains the separator. */
  lemma {:induction false} SplitJoin(parts: seq<string>, c: char)
    requires parts != []
    requires forall k | 0 <= k < |parts| :: c !in parts[k]
    ensures SplitOn(JoinToString(parts, [c]), c) == parts
  {
    if |parts| == 1 {
      SplitOnFree(parts[0], c, []);
      assert parts[0] + [] == parts[0];
    } else {
      var tail := [c] + JoinToString(parts[1..], [c]);
      assert JoinToString(parts, [c]) == parts[0] + tail;
      SplitOnFree(parts[0], c, tail);
      SplitJoin(parts[1..], c);
      assert tail[1..] == JoinToString(parts[1..], [c]);
      assert SplitOn(tail, c) == [[]] + parts[1..];
      assert parts[0] + SplitOn(tail, c)[0] == parts[0];
      assert parts == [parts[0]] + parts[1..];
    }
  }

  /** `f(x)` for every element, concatenated left to right: what a loop that
      appends `f(x)` for each element leaves in a builder. */
  function ConcatMap<T>(f: T -> string, xs: seq<T>): string
  {
    if xs == [] then [] else ConcatMap(f, xs[..|xs| - 1]) + f(xs[|xs| - 1])
  }

  lemma ConcatMapPush<T>(f: T -> string, xs: seq<T>, x: T)
    ensures ConcatMap(f, xs + [x]) == ConcatMap(f, xs) + f(x)
  {
    assert (xs + [x])[..|xs|] == xs;
  }

  /** The elements of two sequences contribute independently, in order. */
  lemma {:induction false} ConcatMapAppend<T>(f: T -> string, a: seq<T>, b: seq<T>)
    ensures ConcatMap(f, a + b) == ConcatMap(f, a) + ConcatMap(f, b)
  {
    if b == [] {
      assert a + b == a;
    } else {
      var init, x := b[..|b| - 1], b[|b| - 1];
      assert b == init + [x];
      assert a + b == (a + init) + [x];
      ConcatMapAppend(f, a, init);
      ConcatMapPush(f, a + init, x);
      ConcatMapPush(f, init, x);
    }
  }

  /** A mutable `StringBuilder`; `contents` is what `toString()` returns. */
  class StringBuilder {
    var contents: string

    constructor ()
      ensures contents == []
    {
      contents := [];
    }

    /** `append(s)`. */
    method Append(s: string)
      modifies this
      ensures contents == old(contents) + s
    {
      contents := contents + s;
    }
  }
}
