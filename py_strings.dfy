/** The Python `str` operations that the participant parser relies on
    (`strip`, `split`, `lower`, `replace` and the `sep.join` that undoes
    `split`), on ASCII text. */
module PyStrings {

  /** `str.isspace()` on the ASCII range: tab, line feed, vertical tab, form
      feed, carriage return, the separators 0x1C-0x1F and space. */
  predicate IsSpace(c: char) {
    9 <= c as int <= 13 || 28 <= c as int <= 32
  }

  predicate AllSpace(s: string) {
    forall k :: 0 <= k < |s| ==> IsSpace(s[k])
  }

  /** `s.lstrip()`: the suffix of `s` left once its leading whitespace is gone. */
  function TrimLeft(s: string): (r: string)
    ensures |r| <= |s| && r == s[|s| - |r|..]
    ensures AllSpace(s[..|s| - |r|])
    ensures r == [] || !IsSpace(r[0])
  {
    if s != [] && IsSpace(s[0]) then TrimLeft(s[1..]) else s
  }

  /** `s.rstrip()`: the prefix of `s` left once its trailing whitespace is gone. */
  function TrimRight(s: string): (r: string)
    ensures |r| <= |s| && r == s[..|r|]
    ensures AllSpace(s[|r|..])
    ensures r == [] || !IsSpace(r[|r| - 1])
  {
    if s != [] && IsSpace(s[|s| - 1]) then TrimRight(s[..|s| - 1]) else s
  }

  /** `s.strip()`: neither starts nor ends with whitespace (`StripParts`
      says what was cut off). */
  function Strip(s: string): (r: string)
    ensures |r| <= |s|
    ensures r == [] || (!IsSpace(r[0]) && !IsSpace(r[|r| - 1]))
  {
    TrimRight(TrimLeft(s))
  }

  /** Cutting a string in two and joining the halves gives it back. */
  lemma SliceJoin(s: string, k: nat)
    requires k <= |s|
    ensures s[..k] + s[k..] == s
  {
  }

  /** What `strip` cuts off are two all-whitespace ends. */
  lemma StripParts(s: string) returns (front: string, back: string)
    ensures AllSpace(front) && AllSpace(back)
    ensures s == front + (Strip(s) + back)
  {
    var t := TrimLeft(s);
    var r := TrimRight(t);
    front, back := s[..|s| - |t|], t[|r|..];
    SliceJoin(s, |s| - |t|);
    SliceJoin(t, |r|);
    assert s == front + (r + back);
  }

  /** `s.split(sep)` for a one-character separator: the pieces between the
      separators, in order; there is always at least one. */
  function Split(s: string, sep: char): (parts: seq<string>)
    ensures |parts| >= 1
  {
    if s == [] then [[]]
    else
      var rest := Split(s[1..], sep);
      if s[0] == sep then [[]] + rest
      else [[s[0]] + rest[0]] + rest[1..]
  }

  /** `sep.join(parts)`, the inverse of `Split`. */
  function Join(parts: seq<string>, sep: char): string {
    if parts == [] then []
    else if |parts| == 1 then parts[0]
    else parts[0] + [sep] + Join(parts[1..], sep)
  }

  predicate IsUpper(c: char) {
    'A' <= c <= 'Z'
  }

  function LowerChar(c: char): char {
    if IsUpper(c) then (c as int + 32) as char else c
  }

  /** `s.lower()` on ASCII: every upper-case letter becomes its lower-case
      letter and every other character is kept. */
  function Lower(s: string): (r: string)
    ensures |r| == |s|
  {
    seq(|s|, k requires 0 <= k < |s| => LowerChar(s[k]))
  }

  /** `s.replace(from, to)` for single characters: every `from` becomes `to`. */
  function Replace(s: string, from: char, to: char): (r: string)
    ensures |r| == |s|
  {
    seq(|s|, k requires 0 <= k < |s| => if s[k] == from then to else s[k])
  }

  /** Stripping the front of `x + y` strips into `y` only when `x` is all
      whitespace. */
  lemma {:induction false} TrimLeftAppend(x: string, y: string)
    ensures TrimLeft(x + y) == if TrimLeft(x) == [] then TrimLeft(y) else TrimLeft(x) + y
  {
    if x == [] {
      assert x + y == y;
    } else if IsSpace(x[0]) {
      assert (x + y)[1..] == x[1..] + y;
      TrimLeftAppend(x[1..], y);
    } else {
      assert (x + y)[0] == x[0];
    }
  }

  /** Trailing whitespace appended to `x` is stripped off again. */
  lemma {:induction false} TrimRightSpaces(x: string, b: string)
    requires AllSpace(b)
    ensures TrimRight(x + b) == TrimRight(x)
  {
    if b == [] {
      assert x + b == x;
    } else {
      assert (x + b)[|x + b| - 1] == b[|b| - 1];
      assert (x + b)[..|x + b| - 1] == x + b[..|b| - 1];
      TrimRightSpaces(x, b[..|b| - 1]);
    }
  }

  /** Whitespace around `m` makes no difference to `strip`. */
  lemma StripSurrounded(a: string, m: string, b: string)
    requires AllSpace(a) && AllSpace(b)
    ensures Strip(a + m + b) == Strip(m)
  {
    assert a + m + b == a + (m + b);
    TrimLeftAppend(a, m + b);
    TrimLeftAppend(m, b);
    if TrimLeft(m) != [] {
      TrimRightSpaces(TrimLeft(m), b);
    }
  }

  /** A string with no whitespace at either end is its own `strip`. */
  lemma StripUnchanged(m: string)
    requires m == [] || (!IsSpace(m[0]) && !IsSpace(m[|m| - 1]))
    ensures Strip(m) == m
  {
  }

  /** `s.strip().strip() == s.strip()`. */
  lemma StripIdempotent(s: string)
    ensures Strip(Strip(s)) == Strip(s)
  {
    StripUnchanged(Strip(s));
  }

  /** `strip` removes whitespace only: every other character survives it. */
  lemma StripKeepsNonSpace(s: string, c: char)
    requires !IsSpace(c)
    ensures c in Strip(s) <==> c in s
  {
    var front, back := StripParts(s);
    assert c !in front && c !in back;
    assert c in s <==> c in front + (Strip(s) + back);
  }

  /** `rstrip` keeps a first character that is not whitespace. */
  lemma {:induction false} TrimRightKeepsHead(z: string)
    requires z != [] && !IsSpace(z[0])
    ensures TrimRight(z) != [] && TrimRight(z)[0] == z[0]
  {
    if |z| > 1 && IsSpace(z[|z| - 1]) {
      TrimRightKeepsHead(z[..|z| - 1]);
    }
  }

  /** A string whose stripped form is not empty decides the first character of
      the stripped form of anything that extends it. */
  lemma StripFirst(x: string, y: string)
    requires Strip(x) != []
    ensures Strip(x + y) != [] && Strip(x + y)[0] == Strip(x)[0]
  {
    TrimLeftAppend(x, y);
    var z := TrimLeft(x) + y;
    assert z[0] == TrimLeft(x)[0] == Strip(x)[0];
    TrimRightKeepsHead(z);
  }

  /** A separator-free prefix joins the first piece. */
  lemma {:induction false} SplitPrefix(a: string, x: string, sep: char)
    requires sep !in a
    ensures Split(a + x, sep) == [a + Split(x, sep)[0]] + Split(x, sep)[1..]
  {
    var p := Split(x, sep);
    if a == [] {
      assert a + x == x;
      assert a + p[0] == p[0];
      assert [p[0]] + p[1..] == p;
    } else {
      assert (a + x)[0] == a[0] != sep;
      assert (a + x)[1..] == a[1..] + x;
      SplitPrefix(a[1..], x, sep);
      assert [a[0]] + (a[1..] + p[0]) == a + p[0];
    }
  }

  /** The pieces `p` with `b` appended to the last one. */
  function AppendToLast(p: seq<string>, b: string): (r: seq<string>)
    requires |p| >= 1
    ensures |r| == |p|
  {
    p[..|p| - 1] + [p[|p| - 1] + b]
  }

  lemma AppendToLastCons(h: string, q: seq<string>, b: string)
    requires |q| >= 1
    ensures AppendToLast([h] + q, b) == [h] + AppendToLast(q, b)
  {
    assert ([h] + q)[..|q|] == [h] + q[..|q| - 1];
  }

  lemma AppendToLastHead(c: char, q: seq<string>, b: string)
    requires |q| >= 1
    ensures var r := AppendToLast(q, b);
      AppendToLast([[c] + q[0]] + q[1..], b) == [[c] + r[0]] + r[1..]
  {
    var r := AppendToLast(q, b);
    if |q| == 1 {
      assert [c] + (q[0] + b) == ([c] + q[0]) + b;
    } else {
      assert r[0] == q[0];
      assert r[1..] == AppendToLast(q[1..], b);
      AppendToLastCons([c] + q[0], q[1..], b);
    }
  }

  /** A separator-free suffix joins the last piece. */
  lemma {:induction false} SplitSuffix(x: string, b: string, sep: char)
    requires sep !in b
    ensures Split(x + b, sep) == AppendToLast(Split(x, sep), b)
  {
    if x == [] {
      assert [] + b == b;
      SplitPrefix(b, [], sep);
      assert b + [] == b;
    } else {
      assert (x + b)[0] == x[0];
      assert (x + b)[1..] == x[1..] + b;
      SplitSuffix(x[1..], b, sep);
      var q := Split(x[1..], sep);
      if x[0] == sep {
        AppendToLastCons([], q, b);
      } else {
        AppendToLastHead(x[0], q, b);
      }
    }
  }

  /** Joining the pieces of a split gives back the string. */
  lemma {:induction false} JoinSplit(s: string, sep: char)
    ensures Join(Split(s, sep), sep) == s
  {
    if s != [] {
      JoinSplit(s[1..], sep);
      var rest := Split(s[1..], sep);
      if s[0] != sep && |rest| > 1 {
        assert Join(rest, sep) == rest[0] + [sep] + Join(rest[1..], sep);
      }
    }
  }

  /** Splitting separator-free pieces joined by the separator gives back the
      pieces. */
  lemma {:induction false} SplitJoin(parts: seq<string>, sep: char)
    requires |parts| >= 1
    requires forall i :: 0 <= i < |parts| ==> sep !in parts[i]
    ensures Split(Join(parts, sep), sep) == parts
  {
    if |parts| == 1 {
      SplitPrefix(parts[0], [], sep);
      assert parts[0] + [] == parts[0];
    } else {
      SplitJoin(parts[1..], sep);
      var tail := Join(parts[1..], sep);
      assert Join(parts, sep) == parts[0] + ([sep] + tail);
      SplitPrefix(parts[0], [sep] + tail, sep);
      assert ([sep] + tail)[0] == sep;
      assert ([sep] + tail)[1..] == tail;
      assert Split([sep] + tail, sep) == [[]] + parts[1..];
      assert parts[0] + [] == parts[0];
      assert parts == [parts[0]] + parts[1..];
    }
  }

  /** `k` separators give `k + 1` pieces. */
  lemma {:induction false} SplitCount(s: string, sep: char)
    ensures |Split(s, sep)| == multiset(s)[sep] + 1
  {
    if s != [] {
      SplitCount(s[1..], sep);
      assert s == [s[0]] + s[1..];
    }
  }

  /** No piece of a split holds the separator. */
  lemma {:induction false} SplitNoSeparator(s: string, sep: char)
    ensures forall i :: 0 <= i < |Split(s, sep)| ==> sep !in Split(s, sep)[i]
  {
    if s != [] {
      SplitNoSeparator(s[1..], sep);
    }
  }
}
