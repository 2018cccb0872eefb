/** The few operations of Python's `str` that the scripts rely on, over `seq<char>`.
    Whitespace is the ASCII whitespace Python recognises; Unicode spaces are not modelled. */
module Strings {
  import opened Wrappers

  predicate IsSpace(c: char) {
    // ' ', '\t', '\n', '\v', '\f', '\r' and the four separators 0x1C to 0x1F
    c == ' ' || 9 <= c as int <= 13 || 28 <= c as int <= 31
  }

  predicate NoSpace(s: string) {
    forall i :: 0 <= i < |s| ==> !IsSpace(s[i])
  }

  function LStripLen(s: string): (k: nat)
    ensures k <= |s|
    ensures forall i :: 0 <= i < k ==> IsSpace(s[i])
    ensures k == |s| || !IsSpace(s[k])
  {
    if |s| == 0 || !IsSpace(s[0]) then 0 else 1 + LStripLen(s[1..])
  }

  function RStripLen(s: string): (k: nat)
    ensures k <= |s|
    ensures forall i :: |s| - k <= i < |s| ==> IsSpace(s[i])
    ensures k == |s| || !IsSpace(s[|s| - 1 - k])
  {
    if |s| == 0 || !IsSpace(s[|s| - 1]) then 0 else 1 + RStripLen(s[..|s| - 1])
  }

  /** `s.strip()`: the slice of `s` left when leading and trailing whitespace is cut. */
  function Strip(s: string): (r: string)
    ensures exists a, b ::
              && 0 <= a <= b <= |s| && r == s[a..b]
              && (forall i :: 0 <= i < a ==> IsSpace(s[i]))
              && (forall i :: b <= i < |s| ==> IsSpace(s[i]))
    ensures |r| > 0 ==> !IsSpace(r[0]) && !IsSpace(r[|r| - 1])
    ensures NoSpace(s) ==> r == s
  {
    var t := s[LStripLen(s)..];
    var k := RStripLen(t);
    assert t[..|t| - k] == s[LStripLen(s)..|s| - k];
    t[..|t| - k]
  }

  /** A stripped string has nothing left to strip. */
  lemma StripIdempotent(s: string)
    ensures Strip(Strip(s)) == Strip(s)
  {
    var r := Strip(s);
    if |r| > 0 {
      assert LStripLen(r) == 0 && RStripLen(r) == 0;
      assert r[0..][..|r|] == r;
    }
  }

  /** A string that starts and ends with non-space characters is its own strip. */
  lemma StripOfEnds(r: string)
    requires |r| > 0 ==> !IsSpace(r[0]) && !IsSpace(r[|r| - 1])
    ensures Strip(r) == r
  {
    if |r| > 0 {
      assert LStripLen(r) == 0;
      assert r[0..] == r;
      assert RStripLen(r) == 0;
      assert r[..|r|] == r;
    }
  }

  /** `sep.join(parts)`. */
  function Join(parts: seq<string>, sep: string): string {
    if |parts| == 0 then "" else if |parts| == 1 then parts[0]
    else parts[0] + sep + Join(parts[1..], sep)
  }

  /** The text of `s` before the first `c` (all of `s` when there is none). */
  function Before(s: string, c: char): (r: string)
    ensures r <= s && c !in r
    ensures |r| > 0 <==> |s| > 0 && s[0] != c
    ensures |r| < |s| ==> s[|r|] == c
  {
    if |s| == 0 || s[0] == c then "" else [s[0]] + Before(s[1..], c)
  }

  /** Text without `c` lies wholly before it. */
  lemma BeforeAbsent(s: string, c: char)
    requires c !in s
    ensures Before(s, c) == s
  {
    assert |Before(s, c)| == |s|;
  }

  /** `s.split(c)` for a one-character separator: the pieces between the occurrences of `c`. */
  function Split(s: string, c: char): (r: seq<string>)
    ensures |r| >= 1
    ensures forall i :: 0 <= i < |r| ==> c !in r[i]
    ensures Join(r, [c]) == s
    ensures c !in s ==> r == [s]
    ensures r[0] == Before(s, c)
  {
    if |s| == 0 then [""]
    else
      var rest := Split(s[1..], c);
      if s[0] == c then [""] + rest
      else
        assert s == [s[0]] + s[1..];
        JoinExtendFirst([s[0]], rest, [c]);
        [[s[0]] + rest[0]] + rest[1..]
  }

  /** Prefixing the first piece prefixes the join. */
  lemma JoinExtendFirst(x: string, parts: seq<string>, sep: string)
    requires |parts| >= 1
    ensures Join([x + parts[0]] + parts[1..], sep) == x + Join(parts, sep)
  {
    var ext := [x + parts[0]] + parts[1..];
    assert ext[0] == x + parts[0] && ext[1..] == parts[1..];
    if |parts| > 1 {
      assert Join(ext, sep) == (x + parts[0]) + sep + Join(parts[1..], sep);
    }
  }

  /** When `c` occurs in `s`, `s.split(c)[1]` exists and is the text between the first and
      the second `c` (or the end). */
  lemma {:induction false} SplitSecond(s: string, c: char)
    requires c in s
    ensures |Before(s, c)| < |s|
    ensures |Split(s, c)| >= 2
    ensures Split(s, c)[1] == Before(s[|Before(s, c)| + 1..], c)
  {
    if s[0] != c {
      SplitSecond(s[1..], c);
      assert s[1..][|Before(s[1..], c)| + 1..] == s[|Before(s, c)| + 1..];
    }
  }

  /** `Split` on a string given by its first character and the rest. */
  lemma SplitCons(x: char, t: string, c: char)
    ensures Split([x] + t, c) == if x == c then [""] + Split(t, c) else [[x] + Split(t, c)[0]] + Split(t, c)[1..]
  {
    assert ([x] + t)[0] == x && ([x] + t)[1..] == t;
  }

  /** Splitting at an occurrence of the separator splits the two sides independently. */
  lemma SplitAppend(a: string, b: string, c: char)
    ensures Split(a + [c] + b, c) == Split(a, c) + Split(b, c)
  {
    Assoc(a, [c], b);
    SplitAround(a, b, c);
  }

  lemma {:induction false} SplitAround(a: string, b: string, c: char)
    ensures Split(a + ([c] + b), c) == Split(a, c) + Split(b, c)
  {
    if |a| == 0 {
      assert a + ([c] + b) == [c] + b;
      SplitCons(c, b, c);
    } else {
      SplitAround(a[1..], b, c);
      SplitShift(a, [c] + b, c, Split(b, c));
    }
  }

  /** One step of the induction: the first character of `a` goes to the first piece. */
  lemma SplitShift(a: string, m: string, c: char, r: seq<string>)
    requires |a| > 0
    requires Split(a[1..] + m, c) == Split(a[1..], c) + r
    ensures Split(a + m, c) == Split(a, c) + r
  {
    Uncons(a, m);
    SplitCons(a[0], a[1..] + m, c);
    SplitCons(a[0], a[1..], c);
    var l := Split(a[1..], c);
    if a[0] != c {
      ExtendFirst(l, r, [a[0]]);
    } else {
      Assoc([""], l, r);
    }
  }

  lemma Assoc<T>(x: seq<T>, y: seq<T>, z: seq<T>)
    ensures (x + y) + z == x + (y + z)
  {
  }

  lemma Uncons<T>(a: seq<T>, m: seq<T>)
    requires |a| > 0
    ensures a + m == [a[0]] + (a[1..] + m)
    ensures a == [a[0]] + a[1..]
  {
  }

  /** Prefixing the first piece commutes with appending more pieces. */
  lemma ExtendFirst<T>(l: seq<seq<T>>, r: seq<seq<T>>, x: seq<T>)
    requires |l| > 0
    ensures ([x + l[0]] + l[1..]) + r == [x + (l + r)[0]] + (l + r)[1..]
  {
    assert (l + r)[0] == l[0];
    assert (l + r)[1..] == l[1..] + r;
  }

  /** The length of the run of non-space characters that starts `s`. */
  function TokenLen(s: string): (k: nat)
    ensures k <= |s|
    ensures NoSpace(s[..k])
    ensures k == |s| || IsSpace(s[k])
  {
    if |s| == 0 || IsSpace(s[0]) then 0 else 1 + TokenLen(s[1..])
  }

  /** `s.split()`: the maximal runs of non-space characters, in order. */
  function SplitWs(s: string): (r: seq<string>)
    ensures forall i :: 0 <= i < |r| ==> |r[i]| > 0 && NoSpace(r[i])
    decreases |s|
  {
    if |s| == 0 then []
    else if IsSpace(s[0]) then SplitWs(s[1..])
    else
      var k := TokenLen(s);
      [s[..k]] + SplitWs(s[k..])
  }

  lemma {:induction false} TokenLenOf(f: string, t: string)
    requires NoSpace(f) && (|t| == 0 || IsSpace(t[0]))
    ensures TokenLen(f + t) == |f|
  {
    if |f| > 0 {
      assert (f + t)[1..] == f[1..] + t;
      TokenLenOf(f[1..], t);
    } else {
      assert f + t == t;
    }
  }

  /** `split()` takes apart what a tab-`join` of non-empty space-free fields put together. */
  lemma {:induction false} SplitWsJoin(fields: seq<string>)
    requires forall i :: 0 <= i < |fields| ==> |fields[i]| > 0 && NoSpace(fields[i])
    ensures SplitWs(Join(fields, "\t")) == fields
  {
    if |fields| == 1 {
      var f := fields[0];
      TokenLenOf(f, "");
      assert f + "" == f;
      assert f[|f|..] == "";
    } else if |fields| > 1 {
      var f, rest := fields[0], Join(fields[1..], "\t");
      var s := f + "\t" + rest;
      TokenLenOf(f, "\t" + rest);
      assert s == f + ("\t" + rest);
      assert s[..|f|] == f;
      assert s[|f|..] == "\t" + rest;
      assert ("\t" + rest)[1..] == rest;
      SplitWsJoin(fields[1..]);
      assert fields == [f] + fields[1..];
    }
  }

  /** `s` with every whitespace character removed. */
  function RemoveSpaces(s: string): (r: string)
    ensures NoSpace(r)
    ensures |r| <= |s|
  {
    if |s| == 0 then "" else if IsSpace(s[0]) then RemoveSpaces(s[1..]) else [s[0]] + RemoveSpaces(s[1..])
  }

  lemma {:induction false} RemoveSpacesAppend(a: string, b: string)
    ensures RemoveSpaces(a + b) == RemoveSpaces(a) + RemoveSpaces(b)
  {
    if |a| > 0 {
      assert (a + b)[1..] == a[1..] + b;
      RemoveSpacesAppend(a[1..], b);
    } else {
      assert a + b == b;
    }
  }

  lemma {:induction false} RemoveSpacesOfNoSpace(a: string)
    requires NoSpace(a)
    ensures RemoveSpaces(a) == a
  {
    if |a| > 0 {
      RemoveSpacesOfNoSpace(a[1..]);
    }
  }

  /** `"".join(s.split())` removes exactly the whitespace of `s`. */
  lemma {:induction false} JoinSplitWsRemovesSpaces(s: string)
    ensures Join(SplitWs(s), "") == RemoveSpaces(s)
    decreases |s|
  {
    if |s| == 0 {
    } else if IsSpace(s[0]) {
      JoinSplitWsRemovesSpaces(s[1..]);
    } else {
      var k := TokenLen(s);
      var t, rest := s[..k], SplitWs(s[k..]);
      assert SplitWs(s) == [t] + rest;
      JoinSplitWsRemovesSpaces(s[k..]);
      JoinNoSep(t, rest);
      assert s == t + s[k..];
      RemoveSpacesAppend(t, s[k..]);
      RemoveSpacesOfNoSpace(t);
    }
  }

  /** Joining with no separator puts the first piece in front of the rest's join. */
  lemma JoinNoSep(t: string, rest: seq<string>)
    ensures Join([t] + rest, "") == t + Join(rest, "")
  {
    var parts := [t] + rest;
    if |rest| == 0 {
      assert parts == [t];
      assert t + "" == t;
    } else {
      assert parts[1..] == rest;
      assert t + "" == t;
    }
  }

  /** `s.upper()` on ASCII letters; other characters are unchanged. */
  function Upper(s: string): (r: string)
    ensures |r| == |s|
    ensures forall i :: 0 <= i < |s| ==> ('a' <= s[i] <= 'z' ==> r[i] as int == s[i] as int - 32)
    ensures forall i :: 0 <= i < |s| ==> (!('a' <= s[i] <= 'z') ==> r[i] == s[i])
  {
    if |s| == 0 then ""
    else [if 'a' <= s[0] <= 'z' then (s[0] as int - 32) as char else s[0]] + Upper(s[1..])
  }

  /** `sub in s` for strings. */
  predicate Contains(s: string, sub: string) {
    sub <= s || (|s| > 0 && Contains(s[1..], sub))
  }

  /** `s.index(c, start)`: the first position at or after `start` holding `c`; ValueError if none. */
  function IndexOf(s: string, c: char, start: nat): (r: Result<nat>)
    ensures r.Ok? ==> (start <= r.value < |s| && s[r.value] == c
                       && forall i :: start <= i < r.value ==> s[i] != c)
    ensures r.Err? ==> r.error == ValueError && forall i :: start <= i < |s| ==> s[i] != c
    decreases |s| - start
  {
    if start >= |s| then Err(ValueError)
    else if s[start] == c then Ok(start)
    else IndexOf(s, c, start + 1)
  }

  /** Python slicing `s[a:b]`, with the bounds clamped to the string. */
  function Slice(s: string, a: nat, b: nat): (r: string)
    ensures a <= b <= |s| ==> r == s[a..b]
  {
    var hi := if b <= |s| then b else |s|;
    if a <= hi then s[a..hi] else ""
  }

  /** The sequence without its first element (`xs[1:]`), empty when `xs` is. */
  function Tail<T>(xs: seq<T>): (r: seq<T>)
    ensures |xs| > 0 ==> r == xs[1..]
    ensures |xs| == 0 ==> r == []
  {
    if |xs| == 0 then [] else xs[1..]
  }

  // ----- integers -----

  predicate IsDigit(c: char) {
    '0' <= c <= '9'
  }

  predicate AllDigits(s: string) {
    forall i :: 0 <= i < |s| ==> IsDigit(s[i])
  }

  /** The value of a string of decimal digits, most significant first. */
  function DigitsValue(s: string): nat {
    if |s| == 0 then 0
    else DigitsValue(s[..|s| - 1]) * 10 + if IsDigit(s[|s| - 1]) then s[|s| - 1] as int - '0' as int else 0
  }

  /** Python's `int(s)` on a decimal string: surrounding whitespace, an optional sign and
      at least one digit; anything else is a ValueError. */
  function ParseInt(s: string): (r: Result<int>)
    ensures r.Err? ==> r.error == ValueError
  {
    var t := Strip(s);
    if |t| > 1 && (t[0] == '-' || t[0] == '+') && AllDigits(t[1..]) then
      var v: int := DigitsValue(t[1..]);
      Ok(if t[0] == '-' then -v else v)
    else if |t| > 0 && AllDigits(t) then Ok(DigitsValue(t))
    else Err(ValueError)
  }

  /** The digits of `n` in base ten, no leading zero. */
  function Decimal(n: nat): (r: string)
    ensures |r| > 0 && AllDigits(r)
  {
    if n < 10 then [('0' as int + n) as char] else Decimal(n / 10) + [('0' as int + n % 10) as char]
  }

  /** `"%i" % i`: the decimal text of an int, with a minus sign when negative. */
  function IntText(i: int): (r: string)
    ensures |r| > 0
  {
    if i < 0 then "-" + Decimal(-i) else Decimal(i)
  }

  lemma {:induction false} DecimalValue(n: nat)
    ensures DigitsValue(Decimal(n)) == n
  {
    if n >= 10 {
      DecimalValue(n / 10);
      var d := Decimal(n);
      assert d[..|d| - 1] == Decimal(n / 10);
    }
  }

  /** `int` reads back what `%i` writes. */
  lemma ParseIntText(i: int)
    ensures ParseInt(IntText(i)) == Ok(i)
  {
    var t := IntText(i);
    var d := Decimal(if i < 0 then -i else i);
    assert !IsSpace(d[0]) && !IsSpace(d[|d| - 1]) by {
      assert IsDigit(d[0]) && IsDigit(d[|d| - 1]);
    }
    if i < 0 {
      assert t == "-" + d && t[|t| - 1] == d[|d| - 1] && t[1..] == d;
      StripOfEnds(t);
      DecimalValue(-i);
    } else {
      StripOfEnds(t);
      DecimalValue(i);
    }
  }

  // ----- list helpers -----

  /** A list without repetitions. */
  predicate Distinct<T(==)>(xs: seq<T>) {
    forall i, j :: 0 <= i < j < |xs| ==> xs[i] != xs[j]
  }

  /** The elements of a list, as a set: `set(xs)`. */
  function Elems<T>(xs: seq<T>): set<T> {
    set x | x in xs
  }

  /** One more element of a list. */
  lemma ElemsTake<T>(xs: seq<T>, k: nat)
    requires k < |xs|
    ensures Elems(xs[..k + 1]) == Elems(xs[..k]) + {xs[k]}
  {
    assert xs[..k + 1] == xs[..k] + [xs[k]];
  }

  /** Walking a list without repetitions meets each element for the first time. */
  lemma ElemsStep<T>(xs: seq<T>, i: nat)
    requires i < |xs| && forall p, q :: 0 <= p < q < |xs| ==> xs[p] != xs[q]
    ensures xs[i] !in Elems(xs[..i])
    ensures Elems(xs[..i + 1]) == Elems(xs[..i]) + {xs[i]}
  {
    assert xs[..i + 1] == xs[..i] + [xs[i]];
    assert forall k :: 0 <= k < i ==> xs[k] != xs[i];
  }

  /** `d[k]` on a `defaultdict(list)`: the empty list for a missing key. */
  function GetList<K, V>(m: map<K, seq<V>>, k: K): seq<V> {
    if k in m then m[k] else []
  }
}
