/** The parts of Rust's `str` that the bridge's parsers rely on: `split`,
    `lines`, `split_whitespace`, `contains`, `to_lowercase` (as far as it
    matters for comparing with ASCII names) and `FromStr` for `i32`/`u32`. */
module Text {
  import opened Wrappers

  const I32_MIN: int := -0x8000_0000
  const I32_MAX: int := 0x7FFF_FFFF
  const U32_MAX: int := 0xFFFF_FFFF

  /** Unicode White_Space, the set `split_whitespace` splits on. */
  predicate IsWhitespace(c: char)
  {
    var v := c as int;
    || (0x09 <= v <= 0x0D) || v == 0x20 || v == 0x85 || v == 0xA0
    || v == 0x1680 || (0x2000 <= v <= 0x200A) || v == 0x2028 || v == 0x2029
    || v == 0x202F || v == 0x205F || v == 0x3000
  }

  predicate IsDigit(c: char)
  {
    '0' <= c <= '9'
  }

  predicate AllDigits(s: string)
  {
    forall i :: 0 <= i < |s| ==> IsDigit(s[i])
  }

  predicate IsAscii(s: string)
  {
    forall i :: 0 <= i < |s| ==> (s[i] as int) < 0x80
  }

  // ---------------------------------------------------------------------
  // Lowercasing

  /** One character of `str::to_lowercase`, as far as comparisons against
      ASCII names can tell: A-Z become a-z, and U+212A KELVIN SIGN becomes
      'k' (the only non-ASCII character whose lowercase form is ASCII).
      Every other character either stays ASCII-identical or stays non-ASCII. */
  function LowerChar(c: char): (r: char)
    ensures (r as int) < 0x80 <==> (c as int) < 0x80 || c == '\U{212A}'
    ensures 'a' <= r <= 'z' <==> 'a' <= c <= 'z' || 'A' <= c <= 'Z' || c == '\U{212A}'
  {
    if 'A' <= c <= 'Z' then (c as int + 32) as char
    else if c == '\U{212A}' then 'k'
    else c
  }

  function Lower(s: string): (r: string)
    ensures |r| == |s|
  {
    if s == [] then [] else [LowerChar(s[0])] + Lower(s[1..])
  }

  // ---------------------------------------------------------------------
  // Substrings

  predicate StartsWith(s: string, prefix: string)
  {
    prefix <= s
  }

  /** `pat` occurs in `s` starting at index `i`. */
  predicate OccursAt(s: string, pat: string, i: int)
  {
    0 <= i <= |s| - |pat| && s[i..i + |pat|] == pat
  }

  /** `str::contains` with a string pattern. */
  predicate Contains(s: string, pat: string)
  {
    exists i | 0 <= i <= |s| :: OccursAt(s, pat, i)
  }

  // ---------------------------------------------------------------------
  // split(c) and its inverse

  /** `s.split(sep)` for a one-character pattern: the pieces between
      separators, always at least one (an empty input gives `[""]`). */
  function Split(s: string, sep: char): (r: seq<string>)
    ensures |r| >= 1
    ensures forall i :: 0 <= i < |r| ==> sep !in r[i]
  {
    if s == [] then [[]]
    else
      var rest := Split(s[1..], sep);
      if s[0] == sep then [[]] + rest
      else [[s[0]] + rest[0]] + rest[1..]
  }

  /** Joining pieces with a separator: what `Split` undoes. */
  function Join(parts: seq<string>, sep: char): string
  {
    if parts == [] then []
    else if |parts| == 1 then parts[0]
    else parts[0] + [sep] + Join(parts[1..], sep)
  }

  lemma {:induction false} JoinSplit(s: string, sep: char)
    ensures Join(Split(s, sep), sep) == s
  {
    if s != [] {
      var rest := Split(s[1..], sep);
      JoinSplit(s[1..], sep);
      if s[0] == sep {
        assert Split(s, sep) == [[]] + rest;
        assert ([[]] + rest)[1..] == rest;
      } else {
        var r := [[s[0]] + rest[0]] + rest[1..];
        assert Split(s, sep) == r;
        if |rest| == 1 {
          assert Join(rest, sep) == rest[0];
        } else {
          assert Join(rest, sep) == rest[0] + [sep] + Join(rest[1..], sep);
          assert r[1..] == rest[1..];
        }
      }
    }
  }

  lemma {:induction false} SplitJoin(parts: seq<string>, sep: char)
    requires |parts| >= 1
    requires forall i :: 0 <= i < |parts| ==> sep !in parts[i]
    ensures Split(Join(parts, sep), sep) == parts
  {
    if |parts| == 1 {
      SplitNoSep(parts[0], sep);
    } else {
      SplitJoin(parts[1..], sep);
      SplitPrefix(parts[0], Join(parts[1..], sep), sep);
      assert [parts[0]] + parts[1..] == parts;
    }
  }

  lemma {:induction false} SplitNoSep(s: string, sep: char)
    requires sep !in s
    ensures Split(s, sep) == [s]
  {
    if s != [] {
      SplitNoSep(s[1..], sep);
      assert [s[0]] + s[1..] == s;
    }
  }

  lemma {:induction false} SplitPrefix(a: string, b: string, sep: char)
    requires sep !in a
    ensures Split(a + [sep] + b, sep) == [a] + Split(b, sep)
  {
    if a == [] {
      assert a + [sep] + b == [sep] + b;
      assert ([sep] + b)[1..] == b;
    } else {
      assert (a + [sep] + b)[1..] == a[1..] + [sep] + b;
      SplitPrefix(a[1..], b, sep);
      assert [a[0]] + a[1..] == a;
    }
  }

  // ---------------------------------------------------------------------
  // lines()

  /** `s.split_inclusive('\n')`: pieces that each end with their newline,
      except possibly the last; an empty input has no pieces. */
  function SplitInclusive(s: string): (r: seq<string>)
    ensures s != [] ==> |r| >= 1
    ensures forall i :: 0 <= i < |r| ==> r[i] != []
  {
    if s == [] then []
    else
      var rest := SplitInclusive(s[1..]);
      if s[0] == '\n' || rest == [] then [[s[0]]] + rest
      else [[s[0]] + rest[0]] + rest[1..]
  }

  /** Drops a trailing "\n" or "\r\n"; a lone trailing '\r' stays. */
  function StripLineEnd(p: string): string
  {
    if |p| >= 1 && p[|p| - 1] == '\n' then
      var q := p[..|p| - 1];
      if |q| >= 1 && q[|q| - 1] == '\r' then q[..|q| - 1] else q
    else p
  }

  /** `s.lines()`. */
  function Lines(s: string): (r: seq<string>)
  {
    StripAll(SplitInclusive(s))
  }

  /** Each piece without its line ending. */
  function StripAll(pieces: seq<string>): (r: seq<string>)
    ensures |r| == |pieces|
  {
    if pieces == [] then [] else [StripLineEnd(pieces[0])] + StripAll(pieces[1..])
  }

  /** Text made of the given lines, each ended by "\n": what `lines()`
      takes apart. */
  function Unlines(ls: seq<string>): (r: string)
    ensures |r| >= |ls|
  {
    if ls == [] then [] else ls[0] + "\n" + Unlines(ls[1..])
  }

  lemma {:induction false} UnlinesAppend(a: seq<string>, b: seq<string>)
    ensures Unlines(a + b) == Unlines(a) + Unlines(b)
  {
    if a == [] {
      assert a + b == b;
    } else {
      assert (a + b)[1..] == a[1..] + b;
      UnlinesAppend(a[1..], b);
    }
  }

  lemma UnlinesSnoc(ls: seq<string>, x: string)
    ensures Unlines(ls + [x]) == Unlines(ls) + x + "\n"
  {
    UnlinesAppend(ls, [x]);
    assert Unlines([x]) == x + "\n" + Unlines([]);
  }

  /** Every line after the first sits between two newlines. */
  lemma {:induction false} UnlinesHasLine(ls: seq<string>, k: nat)
    requires 0 < k < |ls|
    ensures Contains(Unlines(ls), "\n" + ls[k] + "\n")
  {
    var pat := "\n" + ls[k] + "\n";
    var rest := Unlines(ls[1..]);
    assert Unlines(ls) == ls[0] + "\n" + rest;
    if k == 1 {
      var tail := Unlines(ls[2..]);
      assert Unlines(ls) == ls[0] + (pat + tail);
      assert OccursAt(pat + tail, pat, 0);
      OccursAfter(ls[0], pat + tail, pat, 0);
    } else {
      UnlinesHasLine(ls[1..], k - 1);
      assert ls[1..][k - 1] == ls[k];
      var i :| 0 <= i <= |rest| && OccursAt(rest, pat, i);
      assert Unlines(ls) == (ls[0] + "\n") + rest;
      OccursAfter(ls[0] + "\n", rest, pat, i);
    }
  }

  /** An occurrence stays one when text is put in front. */
  lemma OccursAfter(pre: string, s: string, pat: string, i: int)
    requires OccursAt(s, pat, i)
    ensures OccursAt(pre + s, pat, |pre| + i)
  {
    assert (pre + s)[|pre| + i..|pre| + i + |pat|] == s[i..i + |pat|];
  }

  lemma {:induction false} SplitInclusiveLine(a: string, b: string)
    requires '\n' !in a
    ensures SplitInclusive(a + "\n" + b) == [a + "\n"] + SplitInclusive(b)
  {
    if a == [] {
      assert a + "\n" + b == "\n" + b;
      assert ("\n" + b)[1..] == b;
    } else {
      assert (a + "\n" + b)[1..] == a[1..] + "\n" + b;
      SplitInclusiveLine(a[1..], b);
      assert [a[0]] + (a[1..] + "\n") == a + "\n";
    }
  }

  /** A first line free of newlines and of a trailing carriage return is
      the first thing `lines()` yields; the rest is the lines of the
      remainder. */
  lemma LinesCons(a: string, b: string)
    requires '\n' !in a && (a == [] || a[|a| - 1] != '\r')
    ensures Lines(a + "\n" + b) == [a] + Lines(b)
  {
    SplitInclusiveLine(a, b);
    var q := SplitInclusive(b);
    assert StripLineEnd(a + "\n") == a by {
      assert (a + "\n")[..|a|] == a;
    }
    assert ([a + "\n"] + q)[1..] == q;
  }

  /** `lines()` gives back the lines the text was made of, as long as none
      holds a newline or ends with a carriage return. */
  lemma {:induction false} LinesUnlines(ls: seq<string>)
    requires forall i :: 0 <= i < |ls| ==> '\n' !in ls[i] && (ls[i] == [] || ls[i][|ls[i]| - 1] != '\r')
    ensures Lines(Unlines(ls)) == ls
  {
    if ls != [] {
      LinesUnlines(ls[1..]);
      LinesCons(ls[0], Unlines(ls[1..]));
    }
  }

  // ---------------------------------------------------------------------
  // split_whitespace()

  /** `s.split_whitespace()`: the maximal runs of non-whitespace. */
  function SplitWhitespace(s: string): (r: seq<string>)
    ensures s != [] && !IsWhitespace(s[0]) ==> |r| >= 1
    ensures forall i :: 0 <= i < |r| ==> r[i] != []
    ensures forall i, j :: 0 <= i < |r| && 0 <= j < |r[i]| ==> !IsWhitespace(r[i][j])
  {
    if s == [] then []
    else
      var rest := SplitWhitespace(s[1..]);
      if IsWhitespace(s[0]) then rest
      else if |s| > 1 && !IsWhitespace(s[1]) then [[s[0]] + rest[0]] + rest[1..]
      else [[s[0]]] + rest
  }

  /** One step of `SplitWhitespace` from the front. */
  lemma SplitWhitespaceCons(x: char, t: string)
    ensures SplitWhitespace([x] + t)
         == if IsWhitespace(x) then SplitWhitespace(t)
            else if t != [] && !IsWhitespace(t[0]) then [[x] + SplitWhitespace(t)[0]] + SplitWhitespace(t)[1..]
            else [[x]] + SplitWhitespace(t)
  {
    assert ([x] + t)[1..] == t;
  }

  /** A white-space character separates the fields on its two sides. */
  lemma {:induction false} SplitWhitespaceSep(a: string, c: char, b: string)
    requires IsWhitespace(c)
    ensures SplitWhitespace(a + [c] + b) == SplitWhitespace(a) + SplitWhitespace(b)
  {
    if a == [] {
      assert a + [c] + b == [c] + b;
      SplitWhitespaceCons(c, b);
    } else {
      var x, a' := a[0], a[1..];
      var t := a' + [c] + b;
      assert a == [x] + a' && a + [c] + b == [x] + t;
      SplitWhitespaceSep(a', c, b);
      SplitWhitespaceCons(x, t);
      SplitWhitespaceCons(x, a');
      var w, v := SplitWhitespace(a'), SplitWhitespace(b);
      assert t[0] == if a' != [] then a'[0] else c;
      if !IsWhitespace(x) && a' != [] && !IsWhitespace(a'[0]) {
        MergeFront([x], w, v);
      } else if !IsWhitespace(x) {
        JoinFront([x], w, v);
      }
    }
  }

  lemma JoinFront<T>(h: T, w: seq<T>, v: seq<T>)
    ensures [h] + (w + v) == [h] + w + v
  {
  }

  lemma MergeFront<T>(h: seq<T>, w: seq<seq<T>>, v: seq<seq<T>>)
    requires |w| >= 1
    ensures [h + (w + v)[0]] + (w + v)[1..] == [h + w[0]] + w[1..] + v
  {
    assert (w + v)[1..] == w[1..] + v;
  }

  /** A non-empty run of non-white-space characters is one field. */
  lemma {:induction false} SplitWhitespaceWord(a: string)
    requires a != []
    requires forall i :: 0 <= i < |a| ==> !IsWhitespace(a[i])
    ensures SplitWhitespace(a) == [a]
  {
    assert a == [a[0]] + a[1..];
    SplitWhitespaceCons(a[0], a[1..]);
    if |a| > 1 {
      SplitWhitespaceWord(a[1..]);
      assert a[1..][0] == a[1] && !IsWhitespace(a[1]);
      assert [[a[0]] + SplitWhitespace(a[1..])[0]] + SplitWhitespace(a[1..])[1..] == [a];
    } else {
      assert a[1..] == [] && SplitWhitespace(a[1..]) == [];
      assert a == [a[0]];
    }
  }

  /** Only white space has no fields. */
  lemma {:induction false} SplitWhitespaceBlank(a: string)
    ensures SplitWhitespace(a) == [] <==> forall i :: 0 <= i < |a| ==> IsWhitespace(a[i])
  {
    if a != [] {
      SplitWhitespaceBlank(a[1..]);
      if IsWhitespace(a[0]) {
        forall i | 0 < i < |a|
          ensures a[i] == a[1..][i - 1]
        {
        }
      } else {
        assert |SplitWhitespace(a)| >= 1;
      }
    }
  }

  // ---------------------------------------------------------------------
  // FromStr for integers

  function DigitValue(c: char): nat
    requires IsDigit(c)
  {
    c as int - '0' as int
  }

  /** The value of a run of decimal digits, most significant first. */
  function DigitsValue(ds: string): nat
    requires AllDigits(ds)
  {
    if ds == [] then 0
    else DigitsValue(ds[..|ds| - 1]) * 10 + DigitValue(ds[|ds| - 1])
  }

  /** The sign `c` followed by at least one digit. */
  predicate SignedDigits(s: string, c: char)
  {
    |s| >= 2 && s[0] == c && AllDigits(s[1..])
  }

  /** `v` when it lies in `lo..=hi`, else the overflow error. */
  function InRange(v: int, lo: int, hi: int): Option<int>
  {
    if lo <= v <= hi then Some(v) else None
  }

  /** Rust's `FromStr` for an integer type with range `lo..=hi`: an optional
      '+' (or '-' when the type is signed) followed by at least one ASCII
      digit; leading zeros are fine, anything else or an out-of-range value
      is an error. */
  function ParseInt(s: string, signed: bool, lo: int, hi: int): (r: Option<int>)
    ensures r.Some? ==> lo <= r.value <= hi
    ensures r.Some? ==> (s != [] && AllDigits(s)) || SignedDigits(s, '+') || (signed && SignedDigits(s, '-'))
    ensures s != [] && AllDigits(s) ==> r == InRange(DigitsValue(s), lo, hi)
    ensures SignedDigits(s, '+') ==> r == InRange(DigitsValue(s[1..]), lo, hi)
    ensures signed && SignedDigits(s, '-') ==> r == InRange(-(DigitsValue(s[1..]) as int), lo, hi)
  {
    if s == [] then None
    else if (s[0] == '+' || s[0] == '-') && |s| == 1 then None
    else
      var negative := signed && s[0] == '-';
      var digits := if s[0] == '+' || negative then s[1..] else s;
      if !AllDigits(digits) then None
      else
        var v: int := if negative then -(DigitsValue(digits) as int) else DigitsValue(digits);
        if lo <= v <= hi then Some(v) else None
  }

  /** `str::parse::<i32>()`. */
  function ParseI32(s: string): (r: Option<int>)
    ensures r.Some? ==> I32_MIN <= r.value <= I32_MAX
  {
    ParseInt(s, true, I32_MIN, I32_MAX)
  }

  /** `str::parse::<u32>()`. */
  function ParseU32(s: string): (r: Option<int>)
    ensures r.Some? ==> 0 <= r.value <= U32_MAX
  {
    ParseInt(s, false, 0, U32_MAX)
  }

  // ---------------------------------------------------------------------
  // Decimal rendering, the inverse of ParseInt

  function DigitChar(d: nat): (c: char)
    requires d < 10
    ensures IsDigit(c) && DigitValue(c) == d
  {
    ('0' as int + d) as char
  }

  /** The shortest decimal digits of `n`. */
  function NatDigits(n: nat): (r: string)
    ensures |r| >= 1 && AllDigits(r)
    ensures DigitsValue(r) == n
  {
    if n < 10 then [DigitChar(n)]
    else
      var r := NatDigits(n / 10) + [DigitChar(n % 10)];
      assert r[..|r| - 1] == NatDigits(n / 10);
      r
  }

  /** `n.to_string()`: a '-' sign for negatives, then the digits. */
  function DecimalString(n: int): (r: string)
    ensures |r| >= 1
  {
    if n < 0 then "-" + NatDigits(-n) else NatDigits(n)
  }

  /** Parsing a rendered integer of the right range gives it back. */
  lemma ParseDecimal(n: int, signed: bool, lo: int, hi: int)
    requires lo <= n <= hi
    requires signed || n >= 0
    ensures ParseInt(DecimalString(n), signed, lo, hi) == Some(n)
  {
    var s := DecimalString(n);
    if n < 0 {
      assert s[1..] == NatDigits(-n);
    } else {
      assert IsDigit(s[0]);
    }
  }
}
