/**
 * The string operations the frame decoder applies to a received line:
 * Python's `str.strip()` (with its notion of whitespace), `str.split(sep)`
 * and, as the inverse of splitting, joining fields with a separator.
 */
module Text {

  /** The characters Python's `str.isspace()` accepts, which `strip()` discards. */
  predicate IsSpace(c: char)
  {
    var n := c as int;
    n == 0x20 || 0x09 <= n <= 0x0D || 0x1C <= n <= 0x1F || n == 0x85 || n == 0xA0 ||
    n == 0x1680 || 0x2000 <= n <= 0x200A || n == 0x2028 || n == 0x2029 ||
    n == 0x202F || n == 0x205F || n == 0x3000
  }

  /** A string made of whitespace only (the empty string included): `not s.strip()` in Python. */
  predicate IsBlank(s: string)
  {
    forall i :: 0 <= i < |s| ==> IsSpace(s[i])
  }

  /** `s.lstrip()`: drops the leading whitespace. */
  function LStrip(s: string): (r: string)
    ensures |r| <= |s|
    ensures r == [] || !IsSpace(r[0])
    ensures r == [] <==> IsBlank(s)
  {
    if |s| > 0 && IsSpace(s[0]) then LStrip(s[1..]) else s
  }

  /** `s.rstrip()`: drops the trailing whitespace. */
  function RStrip(s: string): (r: string)
    ensures |r| <= |s|
    ensures r == [] || !IsSpace(r[|r| - 1])
    ensures r == [] <==> IsBlank(s)
  {
    if |s| > 0 && IsSpace(s[|s| - 1]) then RStrip(s[..|s| - 1]) else s
  }

  /** `s.strip()`: drops whitespace at both ends. */
  function Strip(s: string): (r: string)
    ensures r == [] <==> IsBlank(s)
    ensures r != [] ==> !IsSpace(r[0]) && !IsSpace(r[|r| - 1])
  {
    var l := LStrip(s);
    RStripPrefix(l);
    RStrip(l)
  }

  /** The index of the first occurrence of `c` in `s`. */
  function IndexOf(s: string, c: char): (k: nat)
    requires c in s
    ensures k < |s| && s[k] == c && c !in s[..k]
  {
    if s[0] == c then 0 else IndexOf(s[1..], c) + 1
  }

  /** Text without `c` in front shifts the first `c` by its length. */
  lemma {:induction false} IndexOfAfter(a: string, b: string, c: char)
    requires c !in a && c in b
    ensures c in a + b && IndexOf(a + b, c) == |a| + IndexOf(b, c)
  {
    if a == [] {
      assert a + b == b;
    } else {
      assert (a + b)[0] == a[0];
      assert (a + b)[1..] == a[1..] + b;
      IndexOfAfter(a[1..], b, c);
    }
  }

  /**
   * `s.split(sep)`: the maximal separator-free pieces between separators, so
   * one more piece than there are separators; the empty string gives `[""]`.
   */
  function Split(s: string, sep: char): (fields: seq<string>)
    ensures |fields| > 0
    ensures forall i :: 0 <= i < |fields| ==> sep !in fields[i]
  {
    if s == [] then [[]]
    else if s[0] == sep then [[]] + Split(s[1..], sep)
    else
      var rest := Split(s[1..], sep);
      [[s[0]] + rest[0]] + rest[1..]
  }

  /** `sep.join(fields)`. */
  function Join(fields: seq<string>, sep: char): string
  {
    if |fields| == 0 then []
    else if |fields| == 1 then fields[0]
    else fields[0] + [sep] + Join(fields[1..], sep)
  }

  // ---------------------------------------------------------------------------
  // Stripping

  lemma BlankAppend(a: string, b: string)
    ensures IsBlank(a + b) <==> IsBlank(a) && IsBlank(b)
  {
    if IsBlank(a) && IsBlank(b) {
      forall i | 0 <= i < |a + b| ensures IsSpace((a + b)[i]) {
        if i >= |a| { assert (a + b)[i] == b[i - |a|]; }
      }
    }
    if IsBlank(a + b) {
      forall i | 0 <= i < |a| ensures IsSpace(a[i]) {
        assert (a + b)[i] == a[i];
      }
      forall i | 0 <= i < |b| ensures IsSpace(b[i]) {
        assert (a + b)[|a| + i] == b[i];
      }
    }
  }

  /** Leading whitespace of a concatenation: `a` is consumed entirely only when it is blank. */
  lemma {:induction false} LStripAppend(a: string, b: string)
    ensures LStrip(a + b) == if IsBlank(a) then LStrip(b) else LStrip(a) + b
  {
    if a == [] {
      assert a + b == b;
    } else if IsSpace(a[0]) {
      assert (a + b)[1..] == a[1..] + b;
      LStripAppend(a[1..], b);
      assert IsBlank(a) <==> IsBlank(a[1..]) by {
        assert a == [a[0]] + a[1..];
        BlankAppend([a[0]], a[1..]);
      }
    } else {
      assert !IsBlank(a) by { assert !IsSpace(a[0]); }
    }
  }

  /** Trailing whitespace of a concatenation: `b` is consumed entirely only when it is blank. */
  lemma {:induction false} RStripAppend(a: string, b: string)
    ensures RStrip(a + b) == if IsBlank(b) then RStrip(a) else a + RStrip(b)
  {
    if b == [] {
      assert a + b == a;
    } else {
      var n := |b| - 1;
      if IsSpace(b[n]) {
        assert (a + b)[..|a + b| - 1] == a + b[..n];
        RStripAppend(a, b[..n]);
        assert IsBlank(b) <==> IsBlank(b[..n]) by {
          assert b == b[..n] + [b[n]];
          BlankAppend(b[..n], [b[n]]);
        }
      } else {
        assert !IsBlank(b) by { assert !IsSpace(b[n]); }
      }
    }
  }

  /** `lstrip()` removes a blank prefix and keeps the rest of the string as it is. */
  lemma {:induction false} LStripSuffix(s: string)
    ensures var k := |s| - |LStrip(s)|; LStrip(s) == s[k..] && IsBlank(s[..k])
  {
    if |s| > 0 && IsSpace(s[0]) {
      var t := s[1..];
      LStripSuffix(t);
      var k := |t| - |LStrip(t)|;
      assert s[k + 1..] == t[k..];
      assert s[..k + 1] == [s[0]] + t[..k];
      BlankAppend([s[0]], t[..k]);
    } else {
      assert s[..0] == [];
    }
  }

  /** Stripping the front of a line that is not blank leaves the whitespace it ends with. */
  lemma TrailingSpaceAfterLStrip(s: string)
    requires !IsBlank(s)
    ensures var l := LStrip(s); s[|RStrip(s)|..] == l[|RStrip(l)|..]
  {
    var l := LStrip(s);
    var k := |s| - |l|;
    LStripSuffix(s);
    assert s == s[..k] + l;
    RStripTail(s[..k], l);
  }

  /** Text in front of a string that is not blank leaves the whitespace it ends with. */
  lemma RStripTail(a: string, l: string)
    requires !IsBlank(l)
    ensures (a + l)[|RStrip(a + l)|..] == l[|RStrip(l)|..]
  {
    RStripAppend(a, l);
    var r := RStrip(l);
    assert (a + l)[|a| + |r|..] == l[|r|..];
  }

  /** `rstrip()` removes a blank suffix and keeps the rest of the string as it is. */
  lemma {:induction false} RStripPrefix(s: string)
    ensures s == RStrip(s) + s[|RStrip(s)|..] && IsBlank(s[|RStrip(s)|..])
  {
    if |s| > 0 && IsSpace(s[|s| - 1]) {
      var n := |s| - 1;
      var t := s[..n];
      RStripPrefix(t);
      var r := RStrip(t);
      assert RStrip(s) == r;
      var back := t[|r|..] + [s[n]];
      assert s[|r|..] == back;
      BlankAppend(t[|r|..], [s[n]]);
      assert s == r + back by {
        assert s == t + [s[n]];
        assert t == r + t[|r|..];
      }
    } else {
      assert s[|s|..] == [];
    }
  }

  /** A string without whitespace at its ends is left as it is. */
  lemma StripUnpadded(s: string)
    requires s == [] || (!IsSpace(s[0]) && !IsSpace(s[|s| - 1]))
    ensures Strip(s) == s
  {
  }

  /** Stripping twice is stripping once. */
  lemma StripIdempotent(s: string)
    ensures Strip(Strip(s)) == Strip(s)
  {
    StripUnpadded(Strip(s));
  }

  /** Whitespace added at either end of a string does not change what `strip()` gives. */
  lemma StripIgnoresPadding(w1: string, s: string, w2: string)
    requires IsBlank(w1) && IsBlank(w2)
    ensures Strip(w1 + s + w2) == Strip(s)
  {
    LStripAppend(w1, s + w2);
    assert w1 + s + w2 == w1 + (s + w2);
    LStripAppend(s, w2);
    if IsBlank(s) {
      BlankAppend(s, w2);
    } else {
      RStripAppend(LStrip(s), w2);
    }
  }

  /** Whitespace added at the end of a string does not change what `strip()` gives. */
  lemma StripIgnoresTrailing(s: string, w: string)
    requires IsBlank(w)
    ensures Strip(s + w) == Strip(s)
  {
    LStripAppend(s, w);
    if IsBlank(s) {
      BlankAppend(s, w);
    } else {
      RStripAppend(LStrip(s), w);
    }
  }

  /**
   * Stripping a string around a middle part `m` that starts and ends with
   * non-whitespace only touches the outer parts.
   */
  lemma StripAround(a: string, m: string, b: string)
    requires |m| > 0 && !IsSpace(m[0]) && !IsSpace(m[|m| - 1])
    ensures Strip(a + m + b) == LStrip(a) + m + RStrip(b)
  {
    var s, mb := a + m + b, m + b;
    assert s == a + mb;
    assert mb[0] == m[0];
    LStripBeforeText(a, mb);
    var lam := LStrip(a) + m;
    assert lam[|lam| - 1] == m[|m| - 1];
    assert LStrip(s) == lam + b;
    RStripAfterText(lam, b);
  }

  lemma LStripBeforeText(a: string, t: string)
    requires |t| > 0 && !IsSpace(t[0])
    ensures LStrip(a + t) == LStrip(a) + t
  {
    assert !IsBlank(t) by { assert !IsSpace(t[0]); }
    LStripAppend(a, t);
    if IsBlank(a) {
      assert LStrip(a) == [];
      assert LStrip(t) == t;
    }
  }

  lemma RStripAfterText(t: string, b: string)
    requires |t| > 0 && !IsSpace(t[|t| - 1])
    ensures RStrip(t + b) == t + RStrip(b)
  {
    assert !IsBlank(t) by { assert !IsSpace(t[|t| - 1]); }
    RStripAppend(t, b);
    if IsBlank(b) {
      assert RStrip(b) == [];
      assert RStrip(t) == t;
      assert t + [] == t;
    }
  }

  // ---------------------------------------------------------------------------
  // Splitting and joining

  /** Splitting at one separator splits the two sides independently. */
  lemma {:induction false} SplitAround(a: string, b: string, sep: char)
    ensures Split(a + [sep] + b, sep) == Split(a, sep) + Split(b, sep)
  {
    if a == [] {
      assert a + [sep] + b == [sep] + b;
      assert ([sep] + b)[1..] == b;
    } else {
      assert (a + [sep] + b)[1..] == a[1..] + [sep] + b;
      SplitAround(a[1..], b, sep);
    }
  }

  /** Appending separator-free text to a string extends its last piece. */
  lemma {:induction false} SplitExtendLast(a: string, w: string, sep: char)
    requires sep !in w
    ensures var f := Split(a, sep);
            Split(a + w, sep) == f[..|f| - 1] + [f[|f| - 1] + w]
  {
    if a == [] {
      SplitNoSeparator(w, sep);
      assert a + w == w;
    } else {
      assert (a + w)[0] == a[0];
      assert (a + w)[1..] == a[1..] + w;
      SplitExtendLast(a[1..], w, sep);
      var rest := Split(a[1..], sep);
      if a[0] == sep {
        PrependExtendLast([], rest, w);
      } else {
        PrependExtendLast([a[0]], rest, w);
      }
    }
  }

  /** Extending the last piece commutes with extending the first piece at the front. */
  lemma PrependExtendLast(c: string, rest: seq<string>, w: string)
    requires |rest| > 0
    ensures var f := [c + rest[0]] + rest[1..];
            var g := rest[..|rest| - 1] + [rest[|rest| - 1] + w];
            [c + g[0]] + g[1..] == f[..|f| - 1] + [f[|f| - 1] + w]
  {
    var n := |rest| - 1;
    if n > 0 {
      var g := rest[..n] + [rest[n] + w];
      assert g[0] == rest[0];
      assert g[1..] == rest[1..n] + [rest[n] + w];
    } else {
      assert c + (rest[0] + w) == (c + rest[0]) + w;
    }
  }

  /** A string without the separator is a single piece. */
  lemma {:induction false} SplitNoSeparator(s: string, sep: char)
    requires sep !in s
    ensures Split(s, sep) == [s]
  {
    if s != [] {
      assert sep !in s[1..];
      SplitNoSeparator(s[1..], sep);
      assert [s[0]] + s[1..] == s;
    }
  }

  /** Joining the pieces of a split restores the string. */
  lemma {:induction false} JoinSplit(s: string, sep: char)
    ensures Join(Split(s, sep), sep) == s
  {
    if s == [] {
    } else if s[0] == sep {
      JoinSplit(s[1..], sep);
      assert s == [sep] + s[1..];
    } else {
      var rest := Split(s[1..], sep);
      JoinSplit(s[1..], sep);
      var fields := Split(s, sep);
      assert fields[0] == [s[0]] + rest[0];
      if |rest| == 1 {
        assert s == [s[0]] + s[1..];
      } else {
        assert fields[1..] == rest[1..];
        assert Join(rest, sep) == rest[0] + [sep] + Join(rest[1..], sep);
        assert s == [s[0]] + s[1..];
      }
    }
  }

  /** Splitting the join of separator-free pieces gives the pieces back. */
  lemma {:induction false} SplitJoin(fields: seq<string>, sep: char)
    requires |fields| > 0
    requires forall i :: 0 <= i < |fields| ==> sep !in fields[i]
    ensures Split(Join(fields, sep), sep) == fields
  {
    if |fields| == 1 {
      SplitNoSeparator(fields[0], sep);
    } else {
      SplitJoin(fields[1..], sep);
      SplitAround(fields[0], Join(fields[1..], sep), sep);
      SplitNoSeparator(fields[0], sep);
      assert [fields[0]] + fields[1..] == fields;
    }
  }

  /** A join begins with the first piece. */
  lemma JoinStartsWith(fields: seq<string>, sep: char)
    requires |fields| > 0
    ensures |Join(fields, sep)| >= |fields[0]| && Join(fields, sep)[..|fields[0]|] == fields[0]
  {
  }

  /** Every character of a join comes from one of the pieces or is the separator. */
  lemma {:induction false} JoinChars(fields: seq<string>, sep: char, p: char -> bool)
    requires p(sep)
    requires forall i, j :: 0 <= i < |fields| && 0 <= j < |fields[i]| ==> p(fields[i][j])
    ensures forall k :: 0 <= k < |Join(fields, sep)| ==> p(Join(fields, sep)[k])
  {
    if |fields| > 1 {
      JoinChars(fields[1..], sep, p);
      var tail := Join(fields[1..], sep);
      forall k | 0 <= k < |Join(fields, sep)| ensures p(Join(fields, sep)[k]) {
        if k < |fields[0]| {
        } else if k == |fields[0]| {
        } else {
          assert Join(fields, sep)[k] == tail[k - |fields[0]| - 1];
        }
      }
    }
  }
}
