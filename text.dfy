/** The MicroPython `str` operations the firmware relies on: `split` and
    `join` with a one-character separator, `strip` with no argument,
    `startswith`, and the decimal rendering of integers used by f-strings. */
module Text {
  import opened Wrappers

  const Comma: char := ','

  // ---------------------------------------------------------------
  // split / join
  // ---------------------------------------------------------------

  /** `s.split(sep)`: the fields between separators, never an empty list
      (`"".split(",") == [""]`), and no field holds the separator. */
  function Split(s: string, sep: char): (r: seq<string>)
    ensures |r| >= 1
    decreases |s|
  {
    if |s| == 0 then [""]
    else
      var rest := Split(s[1..], sep);
      if s[0] == sep then [""] + rest
      else [[s[0]] + rest[0]] + rest[1..]
  }

  /** No field of a split holds the separator. */
  lemma {:induction false} SplitFieldsSepFree(s: string, sep: char)
    ensures forall i :: 0 <= i < |Split(s, sep)| ==> sep !in Split(s, sep)[i]
    decreases |s|
  {
    if |s| > 0 {
      SplitFieldsSepFree(s[1..], sep);
      var rest := Split(s[1..], sep);
      if s[0] != sep {
        assert sep !in [s[0]] + rest[0];
        var r := [[s[0]] + rest[0]] + rest[1..];
        assert forall i :: 1 <= i < |r| ==> r[i] == rest[i];
      }
    }
  }

  /** `sep.join(xs)` (see `JoinEnds`, and `SplitJoin` and `JoinSplit` for
      the round trips with `Split`). */
  function Join(xs: seq<string>, sep: char): string
    decreases |xs|
  {
    if |xs| == 0 then ""
    else if |xs| == 1 then xs[0]
    else xs[0] + [sep] + Join(xs[1..], sep)
  }

  /** A join begins with the first field and ends with the last. */
  lemma {:induction false} JoinEnds(xs: seq<string>, sep: char)
    requires |xs| >= 1
    ensures var r := Join(xs, sep); |xs[0]| <= |r| && r[..|xs[0]|] == xs[0]
    ensures var r, z := Join(xs, sep), xs[|xs| - 1]; |z| <= |r| && r[|r| - |z|..] == z
    decreases |xs|
  {
    if |xs| > 1 {
      var r, j, z := Join(xs, sep), Join(xs[1..], sep), xs[|xs| - 1];
      JoinEnds(xs[1..], sep);
      assert r == xs[0] + [sep] + j;
      assert xs[1..][|xs| - 2] == z;
      assert r[|r| - |z|..] == j[|j| - |z|..];
    }
  }

  /** A field without a separator splits to itself. */
  lemma {:induction false} SplitOfSepFree(x: string, sep: char)
    requires sep !in x
    ensures Split(x, sep) == [x]
    decreases |x|
  {
    if |x| > 0 {
      assert sep !in x[1..];
      SplitOfSepFree(x[1..], sep);
      assert [x[0]] + x[1..] == x;
    }
  }

  /** One step of `Split`: the first character either ends the first field
      or joins it. */
  lemma SplitCons(c: char, t: string, sep: char)
    ensures Split([c] + t, sep)
         == if c == sep then [""] + Split(t, sep)
            else [[c] + Split(t, sep)[0]] + Split(t, sep)[1..]
  {
    assert ([c] + t)[1..] == t;
  }

  lemma ConcatAssoc<T>(a: seq<T>, b: seq<T>, c: seq<T>)
    ensures (a + b) + c == a + (b + c)
  {
  }

  /** Splitting distributes over a separator. */
  lemma {:induction false} SplitAppend(x: string, sep: char, y: string)
    ensures Split(x + [sep] + y, sep) == Split(x, sep) + Split(y, sep)
    decreases |x|
  {
    if |x| == 0 {
      assert x + [sep] + y == [sep] + y;
      SplitCons(sep, y, sep);
    } else {
      var c, x' := x[0], x[1..];
      var tail := x' + [sep] + y;
      var left, right := Split(x', sep), Split(y, sep);
      assert Split(x + [sep] + y, sep) == Split([c] + tail, sep) by {
        assert x + [sep] + y == [c] + tail;
      }
      assert Split(x, sep) == Split([c] + x', sep) by {
        assert x == [c] + x';
      }
      assert Split(tail, sep) == left + right by {
        SplitAppend(x', sep, y);
      }
      if c == sep {
        assert Split([c] + tail, sep) == [""] + (left + right) by {
          SplitCons(c, tail, sep);
        }
        assert Split([c] + x', sep) == [""] + left by {
          SplitCons(c, x', sep);
        }
        ConcatAssoc([""], left, right);
      } else {
        var head := [c] + left[0];
        assert Split([c] + tail, sep) == [head] + (left[1..] + right) by {
          SplitCons(c, tail, sep);
          assert (left + right)[0] == left[0];
          assert (left + right)[1..] == left[1..] + right;
        }
        assert Split([c] + x', sep) == [head] + left[1..] by {
          SplitCons(c, x', sep);
        }
        ConcatAssoc([head], left[1..], right);
      }
    }
  }

  /** Joining fields that hold no separator and splitting again gives the
      fields back. */
  lemma {:induction false} SplitJoin(xs: seq<string>, sep: char)
    requires |xs| >= 1
    requires forall i :: 0 <= i < |xs| ==> sep !in xs[i]
    ensures Split(Join(xs, sep), sep) == xs
    decreases |xs|
  {
    SplitOfSepFree(xs[0], sep);
    if |xs| > 1 {
      SplitJoin(xs[1..], sep);
      SplitAppend(xs[0], sep, Join(xs[1..], sep));
      assert [xs[0]] + xs[1..] == xs;
    }
  }

  /** Splitting and joining again gives the text back. */
  lemma {:induction false} JoinSplit(s: string, sep: char)
    ensures Join(Split(s, sep), sep) == s
    decreases |s|
  {
    if |s| > 0 {
      var rest := Split(s[1..], sep);
      JoinSplit(s[1..], sep);
      if s[0] == sep {
        assert ([""] + rest)[1..] == rest;
        assert s == [sep] + s[1..];
      } else {
        var r := [[s[0]] + rest[0]] + rest[1..];
        assert r[1..] == rest[1..];
        if |rest| == 1 {
          assert s == [s[0]] + s[1..];
        } else {
          assert Join(rest, sep) == rest[0] + [sep] + Join(rest[1..], sep);
          assert s == [s[0]] + s[1..];
        }
      }
    }
  }

  /** The text before the first separator and the text after it, if any:
      how the AT+SEND command is read field by field. */
  function SplitOnce(s: string, sep: char): (r: Option<(string, string)>)
    ensures r.None? <==> sep !in s
    ensures r.Some? ==> sep !in r.value.0 && s == r.value.0 + [sep] + r.value.1
    decreases |s|
  {
    if |s| == 0 then None
    else if s[0] == sep then Some(("", s[1..]))
    else
      match SplitOnce(s[1..], sep)
      case None => None
      case Some((a, b)) => Some(([s[0]] + a, b))
  }

  lemma {:induction false} SplitOnceAt(a: string, sep: char, b: string)
    requires sep !in a
    ensures SplitOnce(a + [sep] + b, sep) == Some((a, b))
    decreases |a|
  {
    var s := a + [sep] + b;
    if |a| > 0 {
      assert s[0] == a[0];
      assert s[1..] == a[1..] + [sep] + b;
      SplitOnceAt(a[1..], sep, b);
      assert [a[0]] + a[1..] == a;
    } else {
      assert s[1..] == b;
    }
  }

  // ---------------------------------------------------------------
  // list slicing
  // ---------------------------------------------------------------

  /** A Python slice bound: negative bounds count from the end, and the
      result is clamped to the list. */
  function SliceBound(i: int, n: nat): (b: nat)
    ensures b <= n
  {
    var j := if i < 0 then i + n else i;
    if j < 0 then 0 else if j > n then n else j
  }

  /** `xs[i:j]`; empty when the bounds cross. */
  function PySlice<T>(xs: seq<T>, i: int, j: int): seq<T> {
    var a, b := SliceBound(i, |xs|), SliceBound(j, |xs|);
    if a < b then xs[a..b] else []
  }

  // ---------------------------------------------------------------
  // strip / startswith
  // ---------------------------------------------------------------

  /** The characters MicroPython's argument-less `str.strip()` removes. */
  predicate IsSpace(c: char) {
    c == ' ' || c == '\t' || c == '\n' || c == '\r' || c == '\U{000B}' || c == '\U{000C}'
  }

  /** Leading whitespace removed: a suffix of `s` (see `TrimLeftSpec`). */
  function TrimLeft(s: string): (r: string)
    ensures |r| <= |s| && r == s[|s| - |r|..]
    decreases |s|
  {
    if |s| > 0 && IsSpace(s[0]) then TrimLeft(s[1..]) else s
  }

  /** Trailing whitespace removed: a prefix of `s` (see `TrimRightSpec`). */
  function TrimRight(s: string): (r: string)
    ensures |r| <= |s| && r == s[..|r|]
    decreases |s|
  {
    if |s| > 0 && IsSpace(s[|s| - 1]) then TrimRight(s[..|s| - 1]) else s
  }

  /** `TrimLeft` removes exactly the leading whitespace: everything removed
      is whitespace, and what is left does not start with whitespace. */
  lemma {:induction false} TrimLeftSpec(s: string)
    ensures forall k :: 0 <= k < |s| - |TrimLeft(s)| ==> IsSpace(s[k])
    ensures TrimLeft(s) == [] || !IsSpace(TrimLeft(s)[0])
    decreases |s|
  {
    if |s| > 0 && IsSpace(s[0]) {
      TrimLeftSpec(s[1..]);
      assert forall k :: 1 <= k < |s| ==> s[k] == s[1..][k - 1];
    }
  }

  /** `TrimRight` removes exactly the trailing whitespace: everything removed
      is whitespace, and what is left does not end with whitespace. */
  lemma {:induction false} TrimRightSpec(s: string)
    ensures forall k :: |TrimRight(s)| <= k < |s| ==> IsSpace(s[k])
    ensures TrimRight(s) == [] || !IsSpace(TrimRight(s)[|TrimRight(s)| - 1])
    decreases |s|
  {
    if |s| > 0 && IsSpace(s[|s| - 1]) {
      TrimRightSpec(s[..|s| - 1]);
    }
  }

  /** `s.strip()`: `TrimLeftSpec`, `TrimRightSpec` and `StripEdges` say
      what it removes and what it leaves. */
  function Strip(s: string): (r: string)
    ensures |r| <= |s|
  {
    TrimRight(TrimLeft(s))
  }

  /** What `Strip` leaves neither starts nor ends with whitespace. */
  lemma StripEdges(s: string)
    ensures Strip(s) == [] || (!IsSpace(Strip(s)[0]) && !IsSpace(Strip(s)[|Strip(s)| - 1]))
  {
    var l := TrimLeft(s);
    TrimLeftSpec(s);
    TrimRightSpec(l);
    if Strip(s) != [] {
      assert Strip(s)[0] == l[0];
    }
  }

  /** Stripping twice is stripping once. */
  lemma StripIdempotent(s: string)
    ensures Strip(Strip(s)) == Strip(s)
  {
    var r := Strip(s);
    StripEdges(s);
    assert TrimLeft(r) == r;
    assert TrimRight(r) == r;
  }

  /** `s.startswith(p)`: `s` is `p` followed by the rest of `s`. */
  predicate StartsWith(s: string, p: string): (b: bool)
    ensures b <==> |p| <= |s| && s == p + s[|p|..]
  {
    |p| <= |s| && s[..|p|] == p
  }

  /** Trailing whitespace beyond a non-space character never reaches
      the text before it. */
  lemma {:induction false} TrimRightAfter(u: string, c: char, s: string)
    requires !IsSpace(c)
    ensures TrimRight(u + [c] + s) == u + [c] + TrimRight(s)
    decreases |s|
  {
    var t := u + [c] + s;
    if |s| > 0 && IsSpace(s[|s| - 1]) {
      assert t[..|t| - 1] == u + [c] + s[..|s| - 1];
      TrimRightAfter(u, c, s[..|s| - 1]);
    }
  }

  // ---------------------------------------------------------------
  // decimal numerals
  // ---------------------------------------------------------------

  predicate IsDigit(c: char) {
    '0' <= c <= '9'
  }

  function DigitChar(d: nat): (c: char)
    requires d < 10
    ensures IsDigit(c)
  {
    (('0' as int) + d) as char
  }

  function DigitValue(c: char): nat
    requires IsDigit(c)
  {
    (c as int) - ('0' as int)
  }

  predicate AllDigits(s: string) {
    forall k :: 0 <= k < |s| ==> IsDigit(s[k])
  }

  /** `str(n)` / `f"{n}"` for a non-negative integer. */
  function Decimal(n: nat): (r: string)
    ensures |r| >= 1 && AllDigits(r)
    ensures |r| > 1 ==> r[0] != '0'
    decreases n
  {
    if n < 10 then [DigitChar(n)] else Decimal(n / 10) + [DigitChar(n % 10)]
  }

  /** The value of a string of decimal digits, most significant first. */
  function DigitsValue(s: string): nat
    requires AllDigits(s)
    decreases |s|
  {
    if |s| == 0 then 0
    else DigitsValue(s[..|s| - 1]) * 10 + DigitValue(s[|s| - 1])
  }

  /** A non-empty run of decimal digits read as a number. */
  function ParseNat(s: string): (r: Option<nat>)
    ensures r.Some? <==> |s| >= 1 && AllDigits(s)
  {
    if |s| >= 1 && AllDigits(s) then Some(DigitsValue(s)) else None
  }

  /** Reading a rendered number gives the number back. */
  lemma {:induction false} ParseDecimal(n: nat)
    ensures ParseNat(Decimal(n)) == Some(n)
    decreases n
  {
    var s := Decimal(n);
    if n >= 10 {
      ParseDecimal(n / 10);
      assert s[..|s| - 1] == Decimal(n / 10);
      assert DigitValue(s[|s| - 1]) == n % 10;
      assert DigitsValue(s) == DigitsValue(Decimal(n / 10)) * 10 + n % 10;
    } else {
      assert s == [DigitChar(n)] && s[..|s| - 1] == [];
      assert DigitValue(s[0]) == n;
      assert DigitsValue(s) == n;
    }
  }

  /** `str(i)` for any integer: a minus sign before the magnitude when
      negative. */
  function IntToString(i: int): (r: string)
    ensures |r| >= 1
    ensures Comma !in r
    ensures forall k :: 0 <= k < |r| ==> !IsSpace(r[k])
  {
    if i < 0 then "-" + Decimal(-i) else Decimal(i)
  }
}
