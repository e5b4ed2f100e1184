/** The two operations of Rust's `str` that the registry generator relies on:
    slicing a string at a byte offset (`&s[n..]`) and `str::replace`.
    A Rust `str` is UTF-8, so a `char` occupies one to four bytes and a slice
    offset that does not fall between two characters panics. */
module RustStr {
  import opened Wrappers

  /** Number of bytes of the UTF-8 encoding of `c`. */
  function Utf8Width(c: char): (w: nat)
    ensures 1 <= w <= 4
  {
    if c as int < 0x80 then 1
    else if c as int < 0x800 then 2
    else if c as int < 0x1_0000 then 3
    else 4
  }

  /** Length in bytes of the UTF-8 encoding of `s` (Rust's `str::len`). */
  function ByteLen(s: string): (r: nat)
    ensures |s| <= r <= 4 * |s|
  {
    if s == [] then 0 else Utf8Width(s[0]) + ByteLen(s[1..])
  }

  predicate IsAscii(s: string)
  {
    forall i :: 0 <= i < |s| ==> s[i] as int < 0x80
  }

  lemma {:induction false} AsciiByteLen(s: string)
    requires IsAscii(s)
    ensures ByteLen(s) == |s|
  {
    if s != [] {
      assert IsAscii(s[1..]) by {
        forall i | 0 <= i < |s[1..]| ensures s[1..][i] as int < 0x80 {
          assert s[1..][i] == s[i + 1];
        }
      }
      AsciiByteLen(s[1..]);
    }
  }

  lemma {:induction false} ByteLenAppend(a: string, b: string)
    ensures ByteLen(a + b) == ByteLen(a) + ByteLen(b)
  {
    if a == [] {
      assert a + b == b;
    } else {
      assert (a + b)[0] == a[0];
      assert (a + b)[1..] == a[1..] + b;
      ByteLenAppend(a[1..], b);
    }
  }

  /** A longer character prefix always has more bytes. */
  lemma ByteLenPrefixIncreasing(s: string, j: nat, k: nat)
    requires j < k <= |s|
    ensures ByteLen(s[..j]) < ByteLen(s[..k])
  {
    assert s[..k] == s[..j] + s[j..k];
    ByteLenAppend(s[..j], s[j..k]);
    assert s[j..k] == [s[j]] + s[j + 1..k];
  }

  /** The first character of `s` is `Utf8Width(s[0])` bytes of every non-empty prefix. */
  lemma PrefixByteLen(s: string, k: nat)
    requires 1 <= k <= |s|
    ensures ByteLen(s[..k]) == Utf8Width(s[0]) + ByteLen(s[1..][..k - 1])
  {
    assert s[..k][0] == s[0];
    assert s[..k][1..] == s[1..][..k - 1];
  }

  /** `&s[n..]`: the characters after the first `n` bytes of `s`, or `None`
      where Rust panics because byte `n` is not a character boundary (which
      includes every `n` past the end of `s`). */
  function SliceFrom(s: string, n: nat): (r: Option<string>)
    ensures r.Some? ==>
      |r.value| <= |s| && s[|s| - |r.value|..] == r.value && ByteLen(s[..|s| - |r.value|]) == n
    ensures r.None? ==> forall k :: 0 <= k <= |s| ==> ByteLen(s[..k]) != n
  {
    if n == 0 then
      assert s[..0] == [];
      Some(s)
    else if |s| == 0 then
      assert s[..0] == [];
      None
    else if Utf8Width(s[0]) > n then
      assert s[..0] == [];
      assert forall k :: 1 <= k <= |s| ==> ByteLen(s[..k]) != n by {
        forall k | 1 <= k <= |s| ensures ByteLen(s[..k]) != n { PrefixByteLen(s, k); }
      }
      None
    else
      var r := SliceFrom(s[1..], n - Utf8Width(s[0]));
      if r.Some? then
        assert s[|s| - |r.value|..] == s[1..][|s[1..]| - |r.value|..];
        PrefixByteLen(s, |s| - |r.value|);
        r
      else
        assert s[..0] == [];
        assert forall k :: 1 <= k <= |s| ==> ByteLen(s[..k]) != n by {
          forall k | 1 <= k <= |s| ensures ByteLen(s[..k]) != n { PrefixByteLen(s, k); }
        }
        r
  }

  /** Slicing right after a prefix `p` yields exactly the text that follows `p`. */
  lemma {:induction false} SliceAfterPrefix(p: string, x: string)
    ensures SliceFrom(p + x, ByteLen(p)) == Some(x)
  {
    if p == [] {
      assert p + x == x;
    } else {
      var s := p + x;
      assert s[0] == p[0];
      assert s[1..] == p[1..] + x;
      SliceAfterPrefix(p[1..], x);
    }
  }

  /** Slicing a string at an offset beyond its byte length panics. */
  lemma SliceBeyondEnd(s: string, n: nat)
    requires ByteLen(s) < n
    ensures SliceFrom(s, n).None?
  {
    assert s[..|s|] == s;
    forall k | 0 <= k <= |s|
      ensures ByteLen(s[..k]) != n
    {
      if k < |s| {
        ByteLenPrefixIncreasing(s, k, |s|);
      } else {
        assert s[..k] == s;
      }
    }
  }

  /** Rust's `str::replace`: every non-overlapping occurrence of `pat`, found
      left to right, is replaced by `rep`; the inserted text is not searched
      again. An empty pattern matches before every character and at the end. */
  function ReplaceAll(s: string, pat: string, rep: string): (r: string)
    ensures rep == pat ==> r == s
    ensures |pat| > 0 && (forall i :: !OccursAt(s, pat, i)) ==> r == s
    decreases |s|
  {
    if |pat| == 0 then
      if s == [] then rep else rep + [s[0]] + ReplaceAll(s[1..], pat, rep)
    else if |s| < |pat| then s
    else if s[..|pat|] == pat then
      assert OccursAt(s, pat, 0);
      assert s[..|pat|] + s[|pat|..] == s;
      rep + ReplaceAll(s[|pat|..], pat, rep)
    else
      assert forall i :: OccursAt(s[1..], pat, i) ==> OccursAt(s, pat, i + 1) by {
        forall i | OccursAt(s[1..], pat, i) ensures OccursAt(s, pat, i + 1) {
          assert s[1..][i..i + |pat|] == s[i + 1..i + 1 + |pat|];
        }
      }
      [s[0]] + ReplaceAll(s[1..], pat, rep)
  }

  /** Every occurrence of `pat[0]` in `s` is followed, inside `s`, by a
      character other than `pat[1]`: no occurrence of a pattern of two or more
      characters can start in `s`. */
  predicate NoMatchStartsIn(s: string, pat: string)
    requires |pat| >= 2
  {
    s == [] ||
    ((s[0] != pat[0] || (|s| >= 2 && s[1] != pat[1])) && NoMatchStartsIn(s[1..], pat))
  }

  /** Text whose first two characters differ from the pattern's has its
      first character copied. */
  lemma ReplaceCopiesFirst(t: string, pat: string, rep: string)
    requires |pat| >= 2 && |t| >= |pat|
    requires t[0] != pat[0] || t[1] != pat[1]
    ensures ReplaceAll(t, pat, rep) == [t[0]] + ReplaceAll(t[1..], pat, rep)
  {
    if t[0] != pat[0] {
      assert t[..|pat|][0] == t[0];
    } else {
      assert t[..|pat|][1] == t[1];
    }
  }

  /** For a pattern of two or more characters: text in which every
      occurrence of the pattern's first character is followed, inside the
      text, by a character other than its second is copied unchanged. */
  lemma {:induction false} ReplaceSkips(s: string, rest: string, pat: string, rep: string)
    requires |pat| >= 2 && NoMatchStartsIn(s, pat)
    ensures ReplaceAll(s + rest, pat, rep) == s + ReplaceAll(rest, pat, rep)
  {
    if s == [] {
      assert s + rest == rest;
    } else {
      var t := s + rest;
      if |t| < |pat| {
        assert ReplaceAll(rest, pat, rep) == rest;
      } else {
        assert t[0] == s[0];
        if s[0] == pat[0] {
          assert t[1] == s[1];
        }
        ReplaceCopiesFirst(t, pat, rep);
        assert t[1..] == s[1..] + rest;
        ReplaceSkips(s[1..], rest, pat, rep);
        AppendAssoc([s[0]], s[1..], ReplaceAll(rest, pat, rep));
        assert [s[0]] + s[1..] == s;
      }
    }
  }

  /** An occurrence of the pattern at the front is replaced. */
  lemma ReplaceAtMatch(rest: string, pat: string, rep: string)
    requires |pat| > 0
    ensures ReplaceAll(pat + rest, pat, rep) == rep + ReplaceAll(rest, pat, rep)
  {
    assert (pat + rest)[..|pat|] == pat;
    assert (pat + rest)[|pat|..] == rest;
  }

  /** `w` occurs in `s` starting at index `i`. */
  predicate OccursAt(s: string, w: string, i: int)
  {
    0 <= i && i + |w| <= |s| && s[i..i + |w|] == w
  }

  /** `w` occurs in `s` as a contiguous piece (Rust's `str::contains`). */
  ghost predicate Contains(s: string, w: string)
  {
    exists i :: OccursAt(s, w, i)
  }

  /** Regrouping facts, stated once as lemmas: a call hands the solver the
      regrouped equation, where an inline assertion would make it re-derive
      sequence equality inside a large proof context. */
  lemma AppendAssoc(x: string, y: string, z: string)
    ensures x + y + z == x + (y + z)
  {
  }

  lemma SplitAt<T>(s: seq<T>, k: nat)
    requires k <= |s|
    ensures s == s[..k] + s[k..]
  {
  }

  lemma AppendAssoc5(a: string, b: string, c: string, d: string, e: string)
    ensures a + b + c + d + e == a + (b + (c + (d + e)))
  {
    AppendAssoc(a + b + c, d, e);
    AppendAssoc(a + b, c, d + e);
    AppendAssoc(a, b, c + (d + e));
  }

  /** `c` does not occur in `s`. */
  predicate Lacks(s: string, c: char)
  {
    forall i :: 0 <= i < |s| ==> s[i] != c
  }

  lemma LacksAppend(x: string, y: string, c: char)
    requires Lacks(x, c) && Lacks(y, c)
    ensures Lacks(x + y, c)
  {
    forall i | 0 <= i < |x + y| ensures (x + y)[i] != c {
      if i >= |x| {
        assert (x + y)[i] == y[i - |x|];
      }
    }
  }

  /** A text without the pattern's first character contains no match. */
  lemma {:induction false} NoFirstCharNoMatch(s: string, pat: string)
    requires |pat| >= 2
    requires Lacks(s, pat[0])
    ensures NoMatchStartsIn(s, pat)
  {
    if s != [] {
      assert Lacks(s[1..], pat[0]) by {
        forall i | 0 <= i < |s[1..]| ensures s[1..][i] != pat[0] {
          assert s[1..][i] == s[i + 1];
        }
      }
      NoFirstCharNoMatch(s[1..], pat);
    }
  }

  /** Prefixing a text without the pattern's first character keeps a text
      free of matches. */
  lemma {:induction false} NoMatchAfterLacking(x: string, y: string, pat: string)
    requires |pat| >= 2
    requires Lacks(x, pat[0]) && NoMatchStartsIn(y, pat)
    ensures NoMatchStartsIn(x + y, pat)
  {
    if x == [] {
      assert x + y == y;
    } else {
      assert (x + y)[0] == x[0];
      assert (x + y)[1..] == x[1..] + y;
      assert Lacks(x[1..], pat[0]) by {
        forall i | 0 <= i < |x[1..]| ensures x[1..][i] != pat[0] {
          assert x[1..][i] == x[i + 1];
        }
      }
      NoMatchAfterLacking(x[1..], y, pat);
    }
  }

  /** Prefixing two characters, the second of which can neither start nor
      continue a match, keeps a text free of matches. */
  lemma NoMatchAfterPair(a: char, b: char, y: string, pat: string)
    requires |pat| >= 2
    requires b != pat[0] && b != pat[1] && NoMatchStartsIn(y, pat)
    ensures NoMatchStartsIn([a, b] + y, pat)
  {
    var s := [a, b] + y;
    assert s[0] == a && s[1] == b;
    assert s[1..] == [b] + y;
    assert s[1..][1..] == y;
  }

  /** Filling both placeholders of a text `h pat b pat tl` whose fixed parts
      contain no match. */
  lemma ReplaceTwoPlaceholders(h: string, b: string, tl: string, pat: string, rep: string)
    requires |pat| >= 2
    requires NoMatchStartsIn(h, pat) && NoMatchStartsIn(b, pat) && NoMatchStartsIn(tl, pat)
    ensures ReplaceAll(h + pat + b + pat + tl, pat, rep) == h + rep + b + rep + tl
  {
    AppendAssoc5(h, pat, b, pat, tl);
    ReplaceSkips(h, pat + (b + (pat + tl)), pat, rep);
    ReplaceAtMatch(b + (pat + tl), pat, rep);
    ReplaceSkips(b, pat + tl, pat, rep);
    ReplaceAtMatch(tl, pat, rep);
    ReplaceSkips(tl, [], pat, rep);
    assert tl + [] == tl;
    AppendAssoc5(h, rep, b, rep, tl);
  }

  lemma ContainsMiddle(x: string, w: string, y: string)
    ensures Contains(x + w + y, w)
  {
    assert (x + w + y)[|x|..|x| + |w|] == w;
    assert OccursAt(x + w + y, w, |x|);
  }

  /** In a filled template `i h t (f r) t tl`, both `h t` and `r t` occur. */
  lemma FilledTemplateContains(i: string, h: string, f: string, r: string, tl: string, t: string)
    ensures Contains(i + h + t + (f + r) + t + tl, h + t)
    ensures Contains(i + h + t + (f + r) + t + tl, r + t)
  {
    var s := i + h + t + (f + r) + t + tl;
    AppendAssoc(i, h, t);
    AppendAssoc(i + (h + t), f + r, t);
    AppendAssoc(i + (h + t), (f + r) + t, tl);
    AppendAssoc(i, h + t, (f + r) + t + tl);
    assert s == i + (h + t) + ((f + r) + t + tl);
    ContainsMiddle(i, h + t, (f + r) + t + tl);
    var p := i + h + t;
    AppendAssoc(p, f, r);
    AppendAssoc(p + f, r, t);
    assert s == p + f + (r + t) + tl;
    ContainsMiddle(p + f, r + t, tl);
  }

  /** A piece of `b` is a piece of any text that has `b` in the middle. */
  lemma ContainsWithin(a: string, b: string, c: string, w: string)
    requires Contains(b, w)
    ensures Contains(a + b + c, w)
  {
    var i :| OccursAt(b, w, i);
    assert (a + b + c)[|a| + i..|a| + i + |w|] == b[i..i + |w|];
    assert OccursAt(a + b + c, w, |a| + i);
  }
}
