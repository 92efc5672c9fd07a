/** The Kotlin standard-library text operations the activity relies on:
    `Char.isWhitespace`, `String.trim()`, `joinToString(" ")` and the decimal
    rendering of an `Int` inside a string template. */
module Text {

  /** Kotlin's `Char.isWhitespace` on the JVM: `Character.isWhitespace` or
      `Character.isSpaceChar`. The proofs below use it only as a predicate.
      Every character it accepts lies in the Basic Multilingual Plane, so it
      reads one UTF-16 code unit as one `char`. */
  predicate IsWhitespace(c: char)
    ensures IsWhitespace(c) ==> c as int <= 0x3000
    ensures c == ' ' || c == '\t' || c == '\n' || c == '\r' ==> IsWhitespace(c)
  {
    var n := c as int;
    || (0x09 <= n <= 0x0D) || (0x1C <= n <= 0x20)
    || n == 0xA0 || n == 0x1680 || (0x2000 <= n <= 0x200A)
    || n == 0x2028 || n == 0x2029 || n == 0x202F || n == 0x205F || n == 0x3000
  }

  predicate AllWhitespace(s: string) {
    forall i | 0 <= i < |s| :: IsWhitespace(s[i])
  }

  /** Neither the first nor the last character is whitespace. */
  predicate IsTrimmed(s: string) {
    s == [] || (!IsWhitespace(s[0]) && !IsWhitespace(s[|s| - 1]))
  }

  /** Length of the longest all-whitespace prefix. */
  function LeadingWhitespace(s: string): (n: nat)
    ensures n <= |s|
    ensures AllWhitespace(s[..n])
    ensures n < |s| ==> !IsWhitespace(s[n])
  {
    if s == [] || !IsWhitespace(s[0]) then 0
    else
      1 + LeadingWhitespace(s[1..])
  }

  /** Length of the longest all-whitespace suffix. */
  function TrailingWhitespace(s: string): (n: nat)
    ensures n <= |s|
    ensures AllWhitespace(s[|s| - n..])
    ensures n < |s| ==> !IsWhitespace(s[|s| - 1 - n])
  {
    if s == [] || !IsWhitespace(s[|s| - 1]) then 0
    else
      1 + TrailingWhitespace(s[..|s| - 1])
  }

  /** `String.trim()`: drops the leading and then the trailing whitespace.
      The result is a slice of `s` whose cut-off ends are all whitespace. */
  function Trim(s: string): (r: string)
    ensures IsTrimmed(r)
    ensures exists i, j | 0 <= i <= j <= |s| ::
              r == s[i..j] && AllWhitespace(s[..i]) && AllWhitespace(s[j..])
  {
    var lead := LeadingWhitespace(s);
    var rest := s[lead..];
    var trail := TrailingWhitespace(rest);
    var r := rest[..|rest| - trail];
    assert r == s[lead..lead + |r|];
    assert s[lead + |r|..] == rest[|rest| - trail..];
    assert r != [] ==> r[0] == s[lead] && r[|r| - 1] == rest[|rest| - 1 - trail];
    r
  }

  /** If all of `t`'s leading characters up to a non-whitespace one (or its
      end) come from the whitespace prefix `p`, that prefix is what is counted. */
  lemma {:induction false} LeadingOfPadded(p: string, t: string)
    requires AllWhitespace(p)
    requires t == [] || !IsWhitespace(t[0])
    ensures LeadingWhitespace(p + t) == |p|
  {
    if p == [] {
      assert p + t == t;
    } else {
      assert (p + t)[0] == p[0];
      assert (p + t)[1..] == p[1..] + t;
      LeadingOfPadded(p[1..], t);
    }
  }

  lemma {:induction false} TrailingOfPadded(t: string, q: string)
    requires AllWhitespace(q)
    requires t != [] && !IsWhitespace(t[|t| - 1])
    ensures TrailingWhitespace(t + q) == |q|
  {
    if q == [] {
      assert t + q == t;
    } else {
      var s := t + q;
      assert s[|s| - 1] == q[|q| - 1];
      assert s[..|s| - 1] == t + q[..|q| - 1];
      TrailingOfPadded(t, q[..|q| - 1]);
    }
  }

  /** `trim` is characterised by its result: padding a trimmed string with
      whitespace on both sides and trimming gives that string back. */
  lemma TrimPadded(p: string, m: string, q: string)
    requires AllWhitespace(p) && AllWhitespace(q) && IsTrimmed(m)
    ensures Trim(p + m + q) == m
  {
    var s := p + m + q;
    if m == [] {
      assert s == p + q;
      LeadingOfPadded(s, []);
      assert s + [] == s;
    } else {
      assert s == p + (m + q);
      LeadingOfPadded(p, m + q);
      assert s[|p|..] == m + q;
      TrailingOfPadded(m, q);
      assert (m + q)[..|m|] == m;
    }
  }

  lemma TrimIdempotent(s: string)
    ensures Trim(Trim(s)) == Trim(s)
  {
    var t := Trim(s);
    TrimPadded([], t, []);
    assert [] + t + [] == t;
  }

  /** Kotlin's `joinToString(" ")` with no prefix, postfix or limit. */
  function Join(parts: seq<string>): string {
    if |parts| == 0 then ""
    else if |parts| == 1 then parts[0]
    else parts[0] + " " + Join(parts[1..])
  }

  /** Splitting on single spaces: the partner that `Join` inverts. */
  function Split(s: string): (parts: seq<string>)
    ensures |parts| >= 1
    ensures forall k | 0 <= k < |parts| :: ' ' !in parts[k]
  {
    if s == [] then [""]
    else
      var tail := Split(s[1..]);
      if s[0] == ' ' then [""] + tail
      else [[s[0]] + tail[0]] + tail[1..]
  }

  lemma {:induction false} SplitWord(a: string)
    requires ' ' !in a
    ensures Split(a) == [a]
  {
    if a != [] {
      SplitWord(a[1..]);
      assert [a[0]] + a[1..] == a;
    }
  }

  lemma SplitCons(c: char, t: string)
    ensures Split([c] + t) ==
              if c == ' ' then [""] + Split(t) else [[c] + Split(t)[0]] + Split(t)[1..]
  {
    assert ([c] + t)[1..] == t;
  }

  /** Splitting a string at one of its spaces splits the two sides. */
  lemma {:induction false} SplitAround(a: string, b: string)
    ensures Split(a + " " + b) == Split(a) + Split(b)
  {
    if a == [] {
      assert a + " " + b == [' '] + b;
      SplitCons(' ', b);
    } else {
      SplitAround(a[1..], b);
      SplitAroundCons(a[0], a[1..], b);
      assert [a[0]] + a[1..] == a;
    }
  }

  /** One step of `SplitAround`: a character put in front of the left side. */
  lemma SplitAroundCons(c: char, t: string, b: string)
    requires Split(t + " " + b) == Split(t) + Split(b)
    ensures Split([c] + t + " " + b) == Split([c] + t) + Split(b)
  {
    assert [c] + t + " " + b == [c] + (t + " " + b);
    SplitCons(c, t + " " + b);
    SplitCons(c, t);
    if c == ' ' {
      ConcatAssoc([""], Split(t), Split(b));
    } else {
      ConsFirst([c] + Split(t)[0], Split(t), Split(b));
    }
  }

  lemma ConcatAssoc(x: seq<string>, y: seq<string>, z: seq<string>)
    ensures x + (y + z) == (x + y) + z
  {
  }

  lemma ConsFirst(w: string, y: seq<string>, z: seq<string>)
    requires |y| >= 1
    ensures [w] + (y + z)[1..] == ([w] + y[1..]) + z
  {
    assert (y + z)[1..] == y[1..] + z;
  }

  /** Each part split on spaces, the pieces laid end to end. */
  function SplitAll(parts: seq<string>): seq<string> {
    if |parts| == 0 then [] else Split(parts[0]) + SplitAll(parts[1..])
  }

  /** Splitting the joined parts on spaces gives the words of every part
      in order: the separator that `Join` inserts is one more split point. */
  lemma {:induction false} SplitJoinAll(parts: seq<string>)
    requires |parts| >= 1
    ensures Split(Join(parts)) == SplitAll(parts)
  {
    if |parts| == 1 {
      assert SplitAll(parts) == Split(parts[0]) + [];
    } else {
      SplitAround(parts[0], Join(parts[1..]));
      SplitJoinAll(parts[1..]);
    }
  }

  /** `Join` undoes `Split`: rejoining the pieces with single spaces gives
      the string back, so `Split` is injective and `SplitJoinAll` pins
      `Join` down. */
  lemma {:induction false} JoinSplit(s: string)
    ensures Join(Split(s)) == s
  {
    if s != [] {
      var c, t := s[0], s[1..];
      var tail := Split(t);
      JoinSplit(t);
      assert Join(tail) == t;
      assert [c] + t == s;
      if c == ' ' {
        var parts := [""] + tail;
        assert parts[1..] == tail;
        assert Join(parts) == "" + " " + t;
      } else {
        var parts := [[c] + tail[0]] + tail[1..];
        if |tail| == 1 {
          assert Join(tail) == tail[0];
          assert Join(parts) == [c] + tail[0];
        } else {
          assert parts[1..] == tail[1..];
          assert Join(tail) == tail[0] + " " + Join(tail[1..]);
          assert Join(parts) == ([c] + tail[0]) + " " + Join(tail[1..]);
        }
      }
    }
  }

  lemma {:induction false} SplitAllWords(parts: seq<string>)
    requires forall k | 0 <= k < |parts| :: ' ' !in parts[k]
    ensures SplitAll(parts) == parts
  {
    if |parts| > 0 {
      SplitWord(parts[0]);
      SplitAllWords(parts[1..]);
      assert [parts[0]] + parts[1..] == parts;
    }
  }

  /** Corollary: parts that hold no space come back unchanged. */
  lemma SplitJoin(parts: seq<string>)
    requires |parts| >= 1
    requires forall k | 0 <= k < |parts| :: ' ' !in parts[k]
    ensures Split(Join(parts)) == parts
  {
    SplitJoinAll(parts);
    SplitAllWords(parts);
  }

  function DigitChar(d: nat): (c: char)
    requires d < 10
  {
    ('0' as int + d) as char
  }

  predicate AllDigits(s: string) {
    forall i | 0 <= i < |s| :: '0' <= s[i] <= '9'
  }

  /** The decimal rendering of a non-negative `Int` in a string template. */
  function Decimal(n: nat): (s: string)
    ensures |s| >= 1
    ensures AllDigits(s)
    ensures n == 0 ==> s == "0"
    ensures n > 0 ==> s[0] != '0'
  {
    if n < 10 then [DigitChar(n)] else Decimal(n / 10) + [DigitChar(n % 10)]
  }

  /** Reads a string of decimal digits back as a number. */
  function ParseDecimal(s: string): nat
    requires AllDigits(s)
  {
    if s == [] then 0
    else 10 * ParseDecimal(s[..|s| - 1]) + ((s[|s| - 1] as int) - ('0' as int))
  }

  lemma {:induction false} DecimalRoundTrip(n: nat)
    ensures ParseDecimal(Decimal(n)) == n
  {
    if n >= 10 {
      var s := Decimal(n);
      assert s[..|s| - 1] == Decimal(n / 10);
      DecimalRoundTrip(n / 10);
    }
  }
}
