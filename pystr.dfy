/** Python `str` operations the tagger relies on: `strip`, `split`, `join`,
    `replace`, `lower` and `endswith`, on strings as sequences of characters. */
module PyStr {

  /** The characters for which Python's `str.isspace` holds, which `str.strip`
      removes from both ends. */
  const Whitespace: set<char> := {
    '\t', '\n', '\U{0B}', '\U{0C}', '\r', '\U{1C}', '\U{1D}', '\U{1E}', '\U{1F}', ' ',
    '\U{85}', '\U{A0}', '\U{1680}',
    '\U{2000}', '\U{2001}', '\U{2002}', '\U{2003}', '\U{2004}', '\U{2005}',
    '\U{2006}', '\U{2007}', '\U{2008}', '\U{2009}', '\U{200A}',
    '\U{2028}', '\U{2029}', '\U{202F}', '\U{205F}', '\U{3000}'}

  predicate IsSpace(c: char)
  {
    c in Whitespace
  }

  predicate AllSpace(s: string)
  {
    forall k :: 0 <= k < |s| ==> IsSpace(s[k])
  }

  /** Number of whitespace characters at the front of `s`. */
  function Lead(s: string): (n: nat)
    ensures n <= |s|
    ensures AllSpace(s[..n])
    ensures n == |s| || !IsSpace(s[n])
  {
    if |s| > 0 && IsSpace(s[0]) then
      var n := 1 + Lead(s[1..]);
      assert s[..n] == [s[0]] + s[1..][..n - 1];
      n
    else 0
  }

  /** Number of whitespace characters at the end of `s`. */
  function Trail(s: string): (n: nat)
    ensures n <= |s|
    ensures AllSpace(s[|s| - n..])
    ensures n == |s| || !IsSpace(s[|s| - n - 1])
  {
    if |s| > 0 && IsSpace(s[|s| - 1]) then
      var n := 1 + Trail(s[..|s| - 1]);
      assert s[|s| - n..] == s[..|s| - 1][|s| - n..] + [s[|s| - 1]];
      n
    else 0
  }

  /** Python's `s.strip()`. */
  function Strip(s: string): (r: string)
    ensures |r| <= |s|
    ensures r == [] || (!IsSpace(r[0]) && !IsSpace(r[|r| - 1]))
    ensures r == [] <==> AllSpace(s)
  {
    var i := Lead(s);
    if i == |s| then [] else
      var j := Trail(s);
      assert i < |s| - j by {
        assert !IsSpace(s[i]);
        assert forall k :: |s| - j <= k < |s| ==> IsSpace(s[k]);
      }
      assert !AllSpace(s) by { assert !IsSpace(s[i]); }
      s[i..|s| - j]
  }

  /** `Strip` removes whitespace only: what it returns is `s` with an
      all-whitespace prefix and an all-whitespace suffix cut off. */
  lemma StripIsInfix(s: string)
    ensures Lead(s) + |Strip(s)| <= |s|
    ensures Strip(s) == s[Lead(s)..Lead(s) + |Strip(s)|]
    ensures AllSpace(s[..Lead(s)])
    ensures AllSpace(s[Lead(s) + |Strip(s)|..])
  {
    var i := Lead(s);
    var r := Strip(s);
    if i < |s| {
      var j := Trail(s);
      assert r == s[i..|s| - j];
      assert i + |r| == |s| - j;
      assert AllSpace(s[|s| - j..]);
    } else {
      assert r == [];
      assert s[i + |r|..] == [];
    }
  }

  /** A string with no whitespace at either end is left alone by `Strip`. */
  lemma StripFixed(s: string)
    requires s == [] || (!IsSpace(s[0]) && !IsSpace(s[|s| - 1]))
    ensures Strip(s) == s
  {
    if s != [] {
      assert Lead(s) == 0;
      assert Trail(s) == 0;
    }
  }

  /** Stripping twice is stripping once. */
  lemma StripIdempotent(s: string)
    ensures Strip(Strip(s)) == Strip(s)
  {
    StripFixed(Strip(s));
  }

  /** Python's `s.split(d)` for a one-character separator: the pieces between
      separators, including empty ones; `""` splits into `[""]`. */
  function Split(s: string, d: char): (r: seq<string>)
    ensures |r| >= 1
    ensures forall k :: 0 <= k < |r| ==> d !in r[k]
    decreases |s|
  {
    if |s| == 0 then [""]
    else
      var rest := Split(s[1..], d);
      if s[0] == d then [""] + rest
      else [[s[0]] + rest[0]] + rest[1..]
  }

  /** Python's `sep.join(xs)`. */
  function Join(xs: seq<string>, sep: string): string
    decreases |xs|
  {
    if |xs| == 0 then ""
    else if |xs| == 1 then xs[0]
    else xs[0] + sep + Join(xs[1..], sep)
  }

  /** Joining the pieces of a split with the separator gives back the string. */
  lemma {:induction false} JoinSplit(s: string, d: char)
    ensures Join(Split(s, d), [d]) == s
    decreases |s|
  {
    if |s| > 0 {
      var rest := Split(s[1..], d);
      JoinSplit(s[1..], d);
      if s[0] == d {
        assert Split(s, d) == [""] + rest;
        assert Join(Split(s, d), [d]) == "" + [d] + Join(rest, [d]);
        assert s == [s[0]] + s[1..];
      } else {
        var r := Split(s, d);
        assert r == [[s[0]] + rest[0]] + rest[1..];
        if |rest| == 1 {
          assert Join(r, [d]) == [s[0]] + rest[0];
        } else {
          assert r[1..] == rest[1..];
          assert Join(rest, [d]) == rest[0] + [d] + Join(rest[1..], [d]);
          assert Join(r, [d]) == ([s[0]] + rest[0]) + [d] + Join(rest[1..], [d]);
        }
        assert s == [s[0]] + s[1..];
      }
    }
  }

  /** Splitting a join whose pieces are free of the separator gives back the
      pieces. */
  lemma {:induction false} SplitJoin(xs: seq<string>, d: char)
    requires |xs| >= 1
    requires forall k :: 0 <= k < |xs| ==> d !in xs[k]
    ensures Split(Join(xs, [d]), d) == xs
    decreases |xs|
  {
    if |xs| == 1 {
      SplitNoSeparator(xs[0], d);
    } else {
      SplitJoin(xs[1..], d);
      var t := [d] + Join(xs[1..], [d]);
      SplitPrefix(xs[0], t, d);
      assert Join(xs, [d]) == xs[0] + t;
      assert d !in xs[0];
      assert t[1..] == Join(xs[1..], [d]);
      var st := Split(t, d);
      assert st == [""] + xs[1..];
      assert st[0] == "" && st[1..] == xs[1..];
      assert xs[0] + st[0] == xs[0];
      assert xs == [xs[0]] + xs[1..];
    }
  }

  lemma {:induction false} SplitNoSeparator(s: string, d: char)
    requires d !in s
    ensures Split(s, d) == [s]
    decreases |s|
  {
    if |s| > 0 {
      SplitNoSeparator(s[1..], d);
      assert s == [s[0]] + s[1..];
    }
  }

  /** A separator-free prefix `p` glues onto the first piece of what follows. */
  lemma {:induction false} SplitPrefix(p: string, t: string, d: char)
    requires d !in p
    requires |t| > 0 && t[0] == d
    ensures Split(p + t, d) == [p + Split(t, d)[0]] + Split(t, d)[1..]
    decreases |p|
  {
    var st := Split(t, d);
    if |p| > 0 {
      SplitPrefix(p[1..], t, d);
      assert (p + t)[1..] == p[1..] + t;
      var rest := Split(p[1..] + t, d);
      assert rest == [p[1..] + st[0]] + st[1..];
      assert (p + t)[0] == p[0] && p[0] != d;
      assert Split(p + t, d) == [[p[0]] + rest[0]] + rest[1..];
      assert [p[0]] + (p[1..] + st[0]) == p + st[0];
    } else {
      assert p + t == t;
      assert p + st[0] == st[0];
    }
  }

  /** Python's `s.replace(a, b)` for one-character `a` and `b`. */
  function Replace(s: string, a: char, b: char): (r: string)
    ensures |r| == |s|
    ensures forall k :: 0 <= k < |s| ==> r[k] == (if s[k] == a then b else s[k])
  {
    if |s| == 0 then "" else [if s[0] == a then b else s[0]] + Replace(s[1..], a, b)
  }

  /** After replacing every `a` by a different `b`, no `a` is left. */
  lemma ReplaceRemoves(s: string, a: char, b: char)
    requires a != b
    ensures a !in Replace(s, a, b)
  {
    var r := Replace(s, a, b);
    assert forall k :: 0 <= k < |r| ==> r[k] != a;
  }

  /** Replacing in a joined string is joining the replaced pieces, when the
      separator does not contain the character replaced. */
  lemma {:induction false} ReplaceJoin(xs: seq<string>, sep: string, a: char, b: char)
    requires a !in sep
    ensures Replace(Join(xs, sep), a, b) == Join(ReplaceEach(xs, a, b), sep)
    decreases |xs|
  {
    if |xs| > 1 {
      ReplaceJoin(xs[1..], sep, a, b);
      ReplaceAppend(xs[0], sep, a, b);
      ReplaceAppend(xs[0] + sep, Join(xs[1..], sep), a, b);
      ReplaceFixed(sep, a, b);
      assert ReplaceEach(xs, a, b)[1..] == ReplaceEach(xs[1..], a, b);
    }
  }

  function ReplaceEach(xs: seq<string>, a: char, b: char): (r: seq<string>)
    ensures |r| == |xs|
    ensures forall k :: 0 <= k < |xs| ==> r[k] == Replace(xs[k], a, b)
  {
    seq(|xs|, k requires 0 <= k < |xs| => Replace(xs[k], a, b))
  }

  lemma ReplaceAppend(s: string, t: string, a: char, b: char)
    ensures Replace(s + t, a, b) == Replace(s, a, b) + Replace(t, a, b)
  {
    var l := Replace(s + t, a, b);
    var r := Replace(s, a, b) + Replace(t, a, b);
    assert |l| == |r|;
    forall k | 0 <= k < |l|
      ensures l[k] == r[k]
    {
      if k < |s| {
        assert (s + t)[k] == s[k];
      } else {
        assert (s + t)[k] == t[k - |s|];
      }
    }
  }

  lemma ReplaceFixed(s: string, a: char, b: char)
    requires a !in s
    ensures Replace(s, a, b) == s
  {
  }

  /** Python's `str.lower()` on the ASCII letters. */
  function LowerChar(c: char): char
  {
    if 'A' <= c <= 'Z' then (c as int - 'A' as int + 'a' as int) as char else c
  }

  function Lower(s: string): (r: string)
    ensures |r| == |s|
    ensures forall k :: 0 <= k < |s| ==> r[k] == LowerChar(s[k])
  {
    seq(|s|, k requires 0 <= k < |s| => LowerChar(s[k]))
  }

  /** Lower-casing is idempotent, so a test on `Lower(s)` is case-blind. */
  lemma LowerIdempotent(s: string)
    ensures Lower(Lower(s)) == Lower(s)
  {
  }

  /** Python's `s.endswith(t)`. */
  predicate EndsWith(s: string, t: string)
  {
    |t| <= |s| && s[|s| - |t|..] == t
  }
}
