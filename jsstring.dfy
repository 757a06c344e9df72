/** The JavaScript String built-ins that `parseLine` chains together:
    `trim`, a global replacement of one character, and `split` on a
    one-character separator, together with `Array.prototype.join` and an
    occurrence count, which serve as their partners in the lemmas. */
module JsString {

  /** ECMAScript WhiteSpace and LineTerminator code points: exactly the
      characters `String.prototype.trim` strips from either end. */
  predicate IsJsWhitespace(c: char) {
    var n := c as int;
    (0x09 <= n <= 0x0D) || n == 0x20 || n == 0xA0 || n == 0x1680
    || (0x2000 <= n <= 0x200A) || n == 0x2028 || n == 0x2029
    || n == 0x202F || n == 0x205F || n == 0x3000 || n == 0xFEFF
  }

  /** For text decoded as latin1 (every char below U+0100) the set above is
      U+0009..U+000D, U+0020 and U+00A0; in particular U+0085 is kept. */
  lemma Latin1Whitespace(c: char)
    requires c as int < 0x100
    ensures IsJsWhitespace(c) <==> (0x09 <= c as int <= 0x0D || c == ' ' || c == '\U{00A0}')
  {
  }

  ghost predicate AllWhitespace(s: string) {
    forall k :: 0 <= k < |s| ==> IsJsWhitespace(s[k])
  }

  /** Drops the leading whitespace (see TrimStartSpec). */
  function TrimStart(s: string): (r: string)
    ensures |r| <= |s|
  {
    if |s| > 0 && IsJsWhitespace(s[0]) then TrimStart(s[1..]) else s
  }

  /** TrimStart keeps the longest suffix of `s` that does not start with
      whitespace. */
  lemma {:induction false} TrimStartSpec(s: string)
    ensures var r := TrimStart(s);
      r == s[|s| - |r|..]
      && (forall k :: 0 <= k < |s| - |r| ==> IsJsWhitespace(s[k]))
      && (r == [] || !IsJsWhitespace(r[0]))
  {
    if |s| > 0 && IsJsWhitespace(s[0]) {
      TrimStartSpec(s[1..]);
    }
  }

  /** Drops the trailing whitespace (see TrimEndSpec). */
  function TrimEnd(s: string): (r: string)
    ensures |r| <= |s|
  {
    if |s| > 0 && IsJsWhitespace(s[|s| - 1]) then TrimEnd(s[..|s| - 1]) else s
  }

  /** TrimEnd keeps the longest prefix of `s` that does not end with
      whitespace. */
  lemma {:induction false} TrimEndSpec(s: string)
    ensures var r := TrimEnd(s);
      r == s[..|r|]
      && (forall k :: |r| <= k < |s| ==> IsJsWhitespace(s[k]))
      && (r == [] || !IsJsWhitespace(r[|r| - 1]))
  {
    if |s| > 0 && IsJsWhitespace(s[|s| - 1]) {
      TrimEndSpec(s[..|s| - 1]);
    }
  }

  /** `String.prototype.trim`: whitespace removed from both ends. */
  function Trim(s: string): (r: string)
    ensures |r| <= |s|
  {
    TrimEnd(TrimStart(s))
  }

  /** What Trim keeps is one contiguous slice `s[i..i+|Trim(s)|]` of the
      input, and only whitespace lies outside it. */
  lemma TrimSlice(s: string)
    ensures var r, i := Trim(s), |s| - |TrimStart(s)|;
      i + |r| <= |s| && r == s[i..i + |r|]
      && (forall k :: 0 <= k < i ==> IsJsWhitespace(s[k]))
      && (forall k :: i + |r| <= k < |s| ==> IsJsWhitespace(s[k]))
  {
    var t := TrimStart(s);
    var r := TrimEnd(t);
    var i := |s| - |t|;
    assert t == s[i..] && forall k :: 0 <= k < i ==> IsJsWhitespace(s[k]) by {
      TrimStartSpec(s);
    }
    assert r == t[..|r|] && forall k :: |r| <= k < |t| ==> IsJsWhitespace(t[k]) by {
      TrimEndSpec(t);
    }
    assert r == s[i..i + |r|];
    forall k | i + |r| <= k < |s| ensures IsJsWhitespace(s[k]) {
      assert s[k] == t[k - i];
    }
  }

  /** The trimmed text neither starts nor ends with whitespace, and it is
      empty exactly when the input is all whitespace. */
  lemma TrimEdges(s: string)
    ensures var r := Trim(s);
      (r == [] || (!IsJsWhitespace(r[0]) && !IsJsWhitespace(r[|r| - 1])))
      && (r == [] <==> AllWhitespace(s))
  {
    var t := TrimStart(s);
    TrimStartSpec(s);
    var r := TrimEnd(t);
    TrimEndSpec(t);
    TrimSlice(s);
    var i := |s| - |t|;
    if r == [] {
      assert AllWhitespace(s);
    } else {
      assert r[0] == s[i];
    }
  }

  lemma {:induction false} TrimStartSkips(a: string, t: string)
    requires AllWhitespace(a)
    ensures TrimStart(a + t) == TrimStart(t)
  {
    if a != [] {
      assert (a + t)[1..] == a[1..] + t;
      TrimStartSkips(a[1..], t);
    } else {
      assert a + t == t;
    }
  }

  lemma {:induction false} TrimEndSkips(t: string, b: string)
    requires AllWhitespace(b)
    ensures TrimEnd(t + b) == TrimEnd(t)
  {
    if b != [] {
      var n := |b|;
      assert (t + b)[|t + b| - 1] == b[n - 1];
      assert (t + b)[..|t + b| - 1] == t + b[..n - 1];
      TrimEndSkips(t, b[..n - 1]);
    } else {
      assert t + b == t;
    }
  }

  /** Trim is determined by its specification: whatever whitespace
      surrounds a core that neither starts nor ends with whitespace is
      exactly what Trim removes. */
  lemma TrimUnique(a: string, m: string, b: string)
    requires AllWhitespace(a) && AllWhitespace(b)
    requires m == [] || (!IsJsWhitespace(m[0]) && !IsJsWhitespace(m[|m| - 1]))
    ensures Trim(a + m + b) == m
  {
    assert a + m + b == a + (m + b);
    TrimStartSkips(a, m + b);
    if m == [] {
      assert m + b == b;
      TrimStartSpec(b);
    } else {
      assert TrimStart(m + b) == m + b;
      TrimEndSkips(m, b);
    }
  }

  lemma TrimIdempotent(s: string)
    ensures Trim(Trim(s)) == Trim(s)
  {
    var t := Trim(s);
    TrimEdges(s);
    assert [] + t + [] == t;
    TrimUnique([], t, []);
  }

  /** A global replacement of the one character `from` by `to`, as
      `s.replace(/from/g, to)` does. */
  function ReplaceAllChar(s: string, from: char, to: char): (r: string)
    ensures |r| == |s|
  {
    if s == [] then [] else [if s[0] == from then to else s[0]] + ReplaceAllChar(s[1..], from, to)
  }

  /** Each occurrence of `from` becomes `to`; every other character stays. */
  lemma {:induction false} ReplaceAllCharAt(s: string, from: char, to: char)
    ensures forall i :: 0 <= i < |s| ==>
      ReplaceAllChar(s, from, to)[i] == (if s[i] == from then to else s[i])
  {
    if s != [] {
      ReplaceAllCharAt(s[1..], from, to);
    }
  }

  /** Number of occurrences of `c` in `s`. */
  function Count(s: string, c: char): nat {
    if s == [] then 0 else (if s[0] == c then 1 else 0) + Count(s[1..], c)
  }

  /** Replacing one character by another leaves the count of any third
      character unchanged. */
  lemma {:induction false} CountReplaceAllChar(s: string, from: char, to: char, c: char)
    requires c != from && c != to
    ensures Count(ReplaceAllChar(s, from, to), c) == Count(s, c)
  {
    if s != [] {
      var r := ReplaceAllChar(s, from, to);
      assert r[1..] == ReplaceAllChar(s[1..], from, to);
      CountReplaceAllChar(s[1..], from, to, c);
    }
  }

  /** `s.split(sep)` for a one-character separator: the pieces between
      consecutive separators, always at least one (`"".split(sep)` is `[""]`). */
  function Split(s: string, sep: char): (r: seq<string>)
    ensures |r| >= 1
  {
    if s == [] then [[]]
    else
      var rest := Split(s[1..], sep);
      if s[0] == sep then [[]] + rest else [[s[0]] + rest[0]] + rest[1..]
  }

  /** `fields.join(sep)`. */
  function Join(fields: seq<string>, sep: char): string {
    if |fields| == 0 then []
    else if |fields| == 1 then fields[0]
    else fields[0] + [sep] + Join(fields[1..], sep)
  }

  /** Splitting loses nothing: joining the pieces with the separator gives
      back the original text. */
  lemma {:induction false} JoinSplit(s: string, sep: char)
    ensures Join(Split(s, sep), sep) == s
  {
    if s != [] {
      var rest := Split(s[1..], sep);
      JoinSplit(s[1..], sep);
      if s[0] == sep {
        assert Split(s, sep)[1..] == rest;
      } else if |rest| == 1 {
        assert Join(Split(s, sep), sep) == [s[0]] + rest[0];
      } else {
        var r := Split(s, sep);
        assert r[1..] == rest[1..];
        assert Join(rest, sep) == rest[0] + [sep] + Join(rest[1..], sep);
      }
    }
  }

  /** No piece contains the separator. */
  lemma {:induction false} SplitFieldsFree(s: string, sep: char)
    ensures forall k :: 0 <= k < |Split(s, sep)| ==> sep !in Split(s, sep)[k]
  {
    if s != [] {
      SplitFieldsFree(s[1..], sep);
    }
  }

  /** Every character of every piece comes from the split text. */
  lemma {:induction false} SplitFieldChars(s: string, sep: char)
    ensures forall k, c :: 0 <= k < |Split(s, sep)| && c in Split(s, sep)[k] ==> c in s
  {
    if s != [] {
      SplitFieldChars(s[1..], sep);
      var rest := Split(s[1..], sep);
      var r := Split(s, sep);
      forall k, c | 0 <= k < |r| && c in r[k] ensures c in s {
        if s[0] == sep {
          assert r[k] == ([[]] + rest)[k];
          if k > 0 { assert r[k] == rest[k - 1]; assert c in s[1..]; }
        } else if k == 0 {
          assert r[0] == [s[0]] + rest[0];
          if c != s[0] { assert c in rest[0]; assert c in s[1..]; }
        } else {
          assert r[k] == rest[k];
          assert c in s[1..];
        }
      }
    }
  }

  /** There is one more piece than there are separators. */
  lemma {:induction false} SplitCount(s: string, sep: char)
    ensures |Split(s, sep)| == Count(s, sep) + 1
  {
    if s != [] {
      SplitCount(s[1..], sep);
    }
  }

  lemma {:induction false} SplitWithoutSeparator(f: string, sep: char)
    requires sep !in f
    ensures Split(f, sep) == [f]
  {
    if f != [] {
      SplitWithoutSeparator(f[1..], sep);
      assert [f[0]] + f[1..] == f;
    }
  }

  lemma {:induction false} SplitAfterField(f: string, t: string, sep: char)
    requires sep !in f
    ensures Split(f + [sep] + t, sep) == [f] + Split(t, sep)
  {
    var s := f + [sep] + t;
    if f == [] {
      assert s == [sep] + t;
      assert s[1..] == t;
    } else {
      assert s[1..] == f[1..] + [sep] + t;
      SplitAfterField(f[1..], t, sep);
      assert [f[0]] + f[1..] == f;
    }
  }

  /** The converse round trip: pieces free of the separator are recovered
      by splitting their join. */
  lemma {:induction false} SplitJoin(fields: seq<string>, sep: char)
    requires |fields| >= 1
    requires forall k :: 0 <= k < |fields| ==> sep !in fields[k]
    ensures Split(Join(fields, sep), sep) == fields
  {
    if |fields| == 1 {
      SplitWithoutSeparator(fields[0], sep);
    } else {
      SplitJoin(fields[1..], sep);
      SplitAfterField(fields[0], Join(fields[1..], sep), sep);
      assert [fields[0]] + fields[1..] == fields;
    }
  }

  /** The join starts with the first piece and ends with the last. */
  lemma {:induction false} JoinEnds(fields: seq<string>, sep: char)
    requires |fields| >= 1
    ensures var j := Join(fields, sep);
      |fields[0]| <= |j| && j[..|fields[0]|] == fields[0]
      && |fields[|fields| - 1]| <= |j| && j[|j| - |fields[|fields| - 1]|..] == fields[|fields| - 1]
  {
    if |fields| > 1 {
      JoinEnds(fields[1..], sep);
      var j := Join(fields, sep);
      var tail := Join(fields[1..], sep);
      assert j == fields[0] + ([sep] + tail);
      assert j == (fields[0] + [sep]) + tail;
      assert fields[|fields| - 1] == fields[1..][|fields[1..]| - 1];
    }
  }

  /** The first piece is a prefix and the last piece a suffix of the split
      text. */
  lemma SplitEnds(s: string, sep: char)
    ensures var f := Split(s, sep);
      var first, last := f[0], f[|f| - 1];
      |first| <= |s| && s[..|first|] == first
      && |last| <= |s| && s[|s| - |last|..] == last
  {
    JoinSplit(s, sep);
    JoinEnds(Split(s, sep), sep);
  }

  /** An empty outer piece next to other pieces can only come from a
      separator at that end of the text. */
  lemma {:induction false} SplitEmptyEdges(s: string, sep: char)
    ensures var f := Split(s, sep);
      (|f| > 1 && f[0] == [] ==> s != [] && s[0] == sep)
      && (|f| > 1 && f[|f| - 1] == [] ==> s != [] && s[|s| - 1] == sep)
  {
    if s != [] {
      var f, rest := Split(s, sep), Split(s[1..], sep);
      SplitEmptyEdges(s[1..], sep);
      if s[0] == sep {
        assert f[1..] == rest;
      } else {
        assert f[1..] == rest[1..];
      }
    }
  }

  /** Splitting text that neither starts nor ends with whitespace gives a
      first piece that does not start, and a last piece that does not end,
      with whitespace. */
  lemma SplitKeepsEdges(s: string, sep: char)
    requires s == [] || (!IsJsWhitespace(s[0]) && !IsJsWhitespace(s[|s| - 1]))
    ensures var f := Split(s, sep);
      (f[0] == [] || !IsJsWhitespace(f[0][0]))
      && (f[|f| - 1] == [] || !IsJsWhitespace(f[|f| - 1][|f[|f| - 1]| - 1]))
  {
    var f := Split(s, sep);
    SplitEnds(s, sep);
    var first, last := f[0], f[|f| - 1];
    if first != [] {
      assert first[0] == s[..|first|][0];
    }
    if last != [] {
      assert last[|last| - 1] == s[|s| - |last|..][|last| - 1];
    }
  }
}
