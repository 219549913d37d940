/** The few Python string operations the bot's parser relies on:
    `str.split(sep)`, `sep.join(parts)`, `str.replace(old, new)` and
    `str.strip()`, over Dafny strings (sequences of Unicode scalar
    values). `Contains`, Python's `pat in s`, is not used by the parser;
    it serves to state what `replace` does. */
module Text {

  /** The characters Python's `str.isspace()` accepts, which are the ones
      `str.strip()` with no argument removes. */
  predicate IsSpace(c: char) {
    var n := c as int;
    (9 <= n <= 13) || (28 <= n <= 32) || n == 0x85 || n == 0xA0 || n == 0x1680
    || (0x2000 <= n <= 0x200A) || n == 0x2028 || n == 0x2029 || n == 0x202F
    || n == 0x205F || n == 0x3000
  }

  predicate AllSpace(s: string) {
    forall i :: 0 <= i < |s| ==> IsSpace(s[i])
  }

  /** No leading and no trailing whitespace. */
  predicate IsStripped(s: string) {
    s == [] || (!IsSpace(s[0]) && !IsSpace(s[|s| - 1]))
  }

  // ---------------------------------------------------------------------
  // str.split(sep) and sep.join(parts) for a one-character separator
  // ---------------------------------------------------------------------

  /** `s.split(sep)`: the pieces between separators, always at least one
      (the empty string splits into `[""]`). */
  function Split(s: string, sep: char): (r: seq<string>)
    ensures |r| >= 1
    ensures forall i :: 0 <= i < |r| ==> sep !in r[i]
    decreases |s|
  {
    if s == [] then [""]
    else
      var rest := Split(s[1..], sep);
      if s[0] == sep then [""] + rest
      else [[s[0]] + rest[0]] + rest[1..]
  }

  /** The number of characters in all of `parts` together. */
  function TotalLength(parts: seq<string>): nat
    decreases |parts|
  {
    if parts == [] then 0 else |parts[0]| + TotalLength(parts[1..])
  }

  /** `sep.join(parts)`: every piece, in order, with one separator
      between neighbours and none at either end. */
  function Join(sep: char, parts: seq<string>): (r: string)
    ensures parts == [] ==> r == ""
    ensures parts != [] ==> |r| == TotalLength(parts) + |parts| - 1
    ensures parts != [] ==> r[..|parts[0]|] == parts[0]
    ensures |parts| >= 2 ==> r[|parts[0]|] == sep
    decreases |parts|
  {
    if |parts| == 0 then ""
    else if |parts| == 1 then parts[0]
    else parts[0] + [sep] + Join(sep, parts[1..])
  }

  /** Python slicing `xs[n:]`, which is empty rather than an error when
      `n` is past the end. */
  function Drop<T>(xs: seq<T>, n: nat): (r: seq<T>)
    ensures |r| == if n <= |xs| then |xs| - n else 0
    ensures forall i :: 0 <= i < |r| ==> r[i] == xs[n + i]
  {
    if n <= |xs| then xs[n..] else []
  }

  /** Joining the pieces of a split gives back the original string. */
  lemma {:induction false} JoinSplit(s: string, sep: char)
    ensures Join(sep, Split(s, sep)) == s
    decreases |s|
  {
    if s != [] {
      var rest := Split(s[1..], sep);
      JoinSplit(s[1..], sep);
      if s[0] == sep {
        assert Split(s, sep) == [""] + rest;
        assert ([""] + rest)[1..] == rest;
      } else {
        var parts := Split(s, sep);
        assert parts == [[s[0]] + rest[0]] + rest[1..];
        if |rest| == 1 {
          assert Join(sep, rest) == rest[0];
        } else {
          assert parts[1..] == rest[1..];
          assert Join(sep, rest) == rest[0] + [sep] + Join(sep, rest[1..]);
          assert Join(sep, parts) == [s[0]] + rest[0] + [sep] + Join(sep, rest[1..]);
        }
      }
    }
  }

  /** Splitting separator-free pieces joined by the separator gives them
      back. */
  lemma {:induction false} SplitJoin(sep: char, parts: seq<string>)
    requires |parts| >= 1
    requires forall i :: 0 <= i < |parts| ==> sep !in parts[i]
    ensures Split(Join(sep, parts), sep) == parts
    decreases |parts|
  {
    if |parts| == 1 {
      SplitLine(parts[0], sep);
    } else {
      SplitJoin(sep, parts[1..]);
      SplitAfterLine(parts[0], Join(sep, parts[1..]), sep);
      assert Join(sep, parts) == parts[0] + [sep] + Join(sep, parts[1..]);
    }
  }

  /** A string without the separator is a single piece. */
  lemma {:induction false} SplitLine(line: string, sep: char)
    requires sep !in line
    ensures Split(line, sep) == [line]
    decreases |line|
  {
    if line != [] {
      assert sep !in line[1..] by {
        forall i | 0 <= i < |line[1..]| ensures line[1..][i] != sep {
          assert line[1..][i] == line[i + 1];
        }
      }
      SplitLine(line[1..], sep);
      assert [line[0]] + line[1..] == line;
    }
  }

  /** The first line of `line + [sep] + rest` is `line`; the others are
      the pieces of `rest`. */
  lemma {:induction false} SplitAfterLine(line: string, rest: string, sep: char)
    requires sep !in line
    ensures Split(line + [sep] + rest, sep) == [line] + Split(rest, sep)
    decreases |line|
  {
    var s := line + [sep] + rest;
    if line == [] {
      assert s[0] == sep && s[1..] == rest;
    } else {
      assert sep !in line[1..] by {
        forall i | 0 <= i < |line[1..]| ensures line[1..][i] != sep {
          assert line[1..][i] == line[i + 1];
        }
      }
      SplitAfterLine(line[1..], rest, sep);
      assert s[0] == line[0] && s[0] != sep;
      assert s[1..] == line[1..] + [sep] + rest;
      assert [line[0]] + line[1..] == line;
    }
  }

  // ---------------------------------------------------------------------
  // `pat in s` and s.replace(pat, rep)
  // ---------------------------------------------------------------------

  /** `pat in s`: some window of `s` equals `pat`. */
  predicate Contains(s: string, pat: string)
    requires pat != []
    decreases |s|
  {
    |s| >= |pat| && (s[..|pat|] == pat || Contains(s[1..], pat))
  }

  /** `s.replace(pat, rep)`: scan left to right and replace every
      non-overlapping occurrence of `pat` by `rep`. */
  function ReplaceAll(s: string, pat: string, rep: string): (r: string)
    requires pat != []
    ensures !Contains(s, pat) ==> r == s
    ensures rep == [] ==> |r| <= |s|
    ensures forall c :: c in r ==> c in s || c in rep
    decreases |s|
  {
    if |s| < |pat| then s
    else if s[..|pat|] == pat then rep + ReplaceAll(s[|pat|..], pat, rep)
    else [s[0]] + ReplaceAll(s[1..], pat, rep)
  }

  /** An occurrence in `t` is an occurrence in `pre + t`. */
  lemma {:induction false} ContainsAfterPrefix(pre: string, t: string, pat: string)
    requires pat != [] && Contains(t, pat)
    ensures Contains(pre + t, pat)
    decreases |pre|
  {
    if pre != [] {
      assert |t| >= |pat|;
      ContainsAfterPrefix(pre[1..], t, pat);
      assert (pre + t)[1..] == pre[1..] + t;
    } else {
      assert pre + t == t;
    }
  }

  /** An occurrence in `t` is an occurrence in `t + post`. */
  lemma {:induction false} ContainsBeforeSuffix(t: string, post: string, pat: string)
    requires pat != [] && Contains(t, pat)
    ensures Contains(t + post, pat)
    decreases |t|
  {
    if t[..|pat|] == pat {
      assert (t + post)[..|pat|] == t[..|pat|];
    } else {
      ContainsBeforeSuffix(t[1..], post, pat);
      assert (t + post)[1..] == t[1..] + post;
    }
  }

  /** A window of a string that contains `pat` contains it too. */
  lemma ContainsInSlice(s: string, lo: nat, hi: nat, pat: string)
    requires pat != [] && lo <= hi <= |s|
    requires Contains(s[lo..hi], pat)
    ensures Contains(s, pat)
  {
    ContainsBeforeSuffix(s[lo..hi], s[hi..], pat);
    ContainsAfterPrefix(s[..lo], s[lo..hi] + s[hi..], pat);
    assert s[..lo] + (s[lo..hi] + s[hi..]) == s;
  }

  /** `replace` replaces the leftmost occurrence: when no occurrence of
      `pat` starts inside `a`, the text `a` is kept, that occurrence
      becomes `rep`, and the scan goes on after it. */
  lemma {:induction false} ReplaceLeftmost(a: string, pat: string, b: string, rep: string)
    requires pat != []
    requires !Contains(a + pat[..|pat| - 1], pat)
    ensures ReplaceAll(a + pat + b, pat, rep) == a + rep + ReplaceAll(b, pat, rep)
    decreases |a|
  {
    var s := a + pat + b;
    if a == [] {
      ReplaceAtMatch(pat, b, rep);
      assert s == pat + b;
    } else {
      NoMatchAtFront(a, pat, b);
      ReplaceLeftmost(a[1..], pat, b, rep);
      LeftmostStep(a, pat, b, rep);
    }
  }

  /** The inductive step of `ReplaceLeftmost`: a first character that
      starts no occurrence is kept in front of the rest's result. */
  lemma LeftmostStep(a: string, pat: string, b: string, rep: string)
    requires pat != [] && a != []
    requires |a + pat + b| >= |pat| && (a + pat + b)[..|pat|] != pat
    requires ReplaceAll(a[1..] + pat + b, pat, rep) == a[1..] + rep + ReplaceAll(b, pat, rep)
    ensures ReplaceAll(a + pat + b, pat, rep) == a + rep + ReplaceAll(b, pat, rep)
  {
    ReplaceAfterMismatch(a, pat, b, rep);
    ConsOntoConcat(a, rep, ReplaceAll(b, pat, rep));
  }

  /** Putting the first character back in front of the rest. */
  lemma ConsOntoConcat(a: string, rep: string, tail: string)
    requires a != []
    ensures [a[0]] + (a[1..] + rep + tail) == a + rep + tail
  {
  }

  /** One step of the scan at an occurrence. */
  lemma ReplaceAtMatch(pat: string, b: string, rep: string)
    requires pat != []
    ensures ReplaceAll(pat + b, pat, rep) == rep + ReplaceAll(b, pat, rep)
  {
    var s := pat + b;
    assert s[..|pat|] == pat && s[|pat|..] == b;
  }

  /** One step of the scan where no occurrence starts. */
  lemma ReplaceAfterMismatch(a: string, pat: string, b: string, rep: string)
    requires pat != [] && a != []
    requires |a + pat + b| >= |pat| && (a + pat + b)[..|pat|] != pat
    ensures ReplaceAll(a + pat + b, pat, rep) == [a[0]] + ReplaceAll(a[1..] + pat + b, pat, rep)
  {
    var s := a + pat + b;
    assert s[0] == a[0] && s[1..] == a[1..] + pat + b;
  }

  /** No occurrence starts inside `a` means none starts at its first
      character, nor inside the rest of it. */
  lemma NoMatchAtFront(a: string, pat: string, b: string)
    requires pat != [] && a != []
    requires !Contains(a + pat[..|pat| - 1], pat)
    ensures |a + pat + b| >= |pat| && (a + pat + b)[..|pat|] != pat
    ensures !Contains(a[1..] + pat[..|pat| - 1], pat)
  {
    var t := a + pat[..|pat| - 1];
    assert (a + pat + b)[..|pat|] == t[..|pat|];
    assert t[1..] == a[1..] + pat[..|pat| - 1];
  }

  /** A text in which `pat` occurs is shortened by removing it. */
  lemma {:induction false} RemovalShortens(s: string, pat: string)
    requires pat != [] && Contains(s, pat)
    ensures |ReplaceAll(s, pat, "")| < |s|
    decreases |s|
  {
    if s[..|pat|] != pat {
      RemovalShortens(s[1..], pat);
    }
  }

  /** Removing occurrences one at a time can splice the pieces around an
      occurrence into a new one: the result of `replace` may still
      contain the pattern. */
  lemma ReplaceCanSplice()
    ensures ReplaceAll("TiTitle:tle:", "Title:", "") == "Title:"
    ensures Contains(ReplaceAll("TiTitle:tle:", "Title:", ""), "Title:")
  {
    var s := "TiTitle:tle:";
    assert s[..6] != "Title:" by { assert s[..6][2] != "Title:"[2]; }
    assert s[1..][..6] != "Title:" by { assert s[1..][..6][0] != "Title:"[0]; }
    assert s[1..][1..][..6] == "Title:";
    assert s[1..][1..][6..] == "tle:";
    assert ReplaceAll("tle:", "Title:", "") == "tle:";
    assert ReplaceAll(s[1..], "Title:", "") == "i" + "tle:";
    assert ReplaceAll(s, "Title:", "") == "T" + "itle:";
    var r := "Title:";
    assert r[..|r|] == r;
  }

  // ---------------------------------------------------------------------
  // str.strip()
  // ---------------------------------------------------------------------

  /** `s.lstrip()`: drop leading whitespace. */
  function StripStart(s: string): (r: string)
    ensures |r| <= |s|
    ensures r == [] || !IsSpace(r[0])
    decreases |s|
  {
    if s != [] && IsSpace(s[0]) then StripStart(s[1..]) else s
  }

  /** `s.rstrip()`: drop trailing whitespace. */
  function StripEnd(s: string): (r: string)
    ensures |r| <= |s|
    ensures r == [] || (!IsSpace(r[|r| - 1]) && r[0] == s[0])
    decreases |s|
  {
    if s != [] && IsSpace(s[|s| - 1]) then StripEnd(s[..|s| - 1]) else s
  }

  /** `s.strip()`: drop whitespace at both ends. */
  function Strip(s: string): (r: string)
    ensures IsStripped(r) && |r| <= |s|
  {
    StripEnd(StripStart(s))
  }

  /** What `StripStart` drops is whitespace, and what it keeps is the rest
      of the string. */
  lemma {:induction false} StripStartWindow(s: string)
    ensures var r := StripStart(s);
      r == s[|s| - |r|..] && AllSpace(s[..|s| - |r|])
    decreases |s|
  {
    if s != [] && IsSpace(s[0]) {
      StripStartWindow(s[1..]);
      var r := StripStart(s);
      assert s[..|s| - |r|] == [s[0]] + s[1..][..|s| - 1 - |r|];
    }
  }

  /** What `StripEnd` drops is whitespace, and what it keeps is the start
      of the string. */
  lemma {:induction false} StripEndWindow(s: string)
    ensures var r := StripEnd(s);
      r == s[..|r|] && AllSpace(s[|r|..])
    decreases |s|
  {
    if s != [] && IsSpace(s[|s| - 1]) {
      var t := s[..|s| - 1];
      StripEndWindow(t);
      var r := StripEnd(s);
      assert s[|r|..] == t[|r|..] + [s[|s| - 1]];
    }
  }

  /** `Strip(s)` is the window of `s` that starts where `StripStart`'s
      result starts, with only whitespace before and after it. */
  lemma StripWindow(s: string)
    ensures var r, lo := Strip(s), |s| - |StripStart(s)|;
      lo + |r| <= |s| && r == s[lo..lo + |r|] && AllSpace(s[..lo]) && AllSpace(s[lo + |r|..])
  {
    var t := StripStart(s);
    var r := Strip(s);
    var lo := |s| - |t|;
    StripStartWindow(s);
    StripEndWindow(t);
    assert r == s[lo..lo + |r|] && s[lo + |r|..] == t[|r|..];
  }

  /** `StripStart` drops exactly a whitespace prefix that is followed by
      a non-space character or by the end of the string. */
  lemma {:induction false} StripStartUnique(s: string, lo: nat)
    requires lo <= |s| && AllSpace(s[..lo]) && (lo == |s| || !IsSpace(s[lo]))
    ensures StripStart(s) == s[lo..]
    decreases lo
  {
    if lo > 0 {
      assert IsSpace(s[0]) by { assert s[..lo][0] == s[0]; }
      assert s[1..][..lo - 1] == s[..lo][1..];
      StripStartUnique(s[1..], lo - 1);
      assert s[1..][lo - 1..] == s[lo..];
    }
  }

  /** `StripEnd` drops exactly a whitespace suffix that follows a
      non-space character or the start of the string. */
  lemma {:induction false} StripEndUnique(s: string, hi: nat)
    requires hi <= |s| && AllSpace(s[hi..]) && (hi == 0 || !IsSpace(s[hi - 1]))
    ensures StripEnd(s) == s[..hi]
    decreases |s| - hi
  {
    if hi < |s| {
      assert IsSpace(s[|s| - 1]) by { assert s[hi..][|s| - 1 - hi] == s[|s| - 1]; }
      var t := s[..|s| - 1];
      assert t[hi..] == s[hi..][..|s| - 1 - hi];
      StripEndUnique(t, hi);
      assert t[..hi] == s[..hi];
    }
  }

  /** The window `Strip` keeps is determined by `StripWindow`'s
      conditions: any window that starts and ends on a non-space
      character and has only whitespace around it is the stripped
      string. */
  lemma StripUnique(s: string, lo: nat, hi: nat)
    requires lo <= hi <= |s|
    requires AllSpace(s[..lo]) && AllSpace(s[hi..]) && IsStripped(s[lo..hi])
    ensures Strip(s) == s[lo..hi]
  {
    if lo < hi {
      assert !IsSpace(s[lo]) by { assert s[lo..hi][0] == s[lo]; }
      assert !IsSpace(s[hi - 1]) by { assert s[lo..hi][hi - lo - 1] == s[hi - 1]; }
      StripStartUnique(s, lo);
      StripEndOfSuffix(s, lo, hi);
    } else {
      assert AllSpace(s) by {
        forall i | 0 <= i < |s| ensures IsSpace(s[i]) {
          if i < lo { assert s[..lo][i] == s[i]; } else { assert s[hi..][i - hi] == s[i]; }
        }
      }
      StripStartUnique(s, |s|);
    }
  }

  lemma StripEndOfSuffix(s: string, lo: nat, hi: nat)
    requires lo < hi <= |s|
    requires AllSpace(s[hi..]) && !IsSpace(s[hi - 1])
    ensures StripEnd(s[lo..]) == s[lo..hi]
  {
    var t, k := s[lo..], hi - lo;
    assert t[k..] == s[hi..];
    assert t[k - 1] == s[hi - 1];
    StripEndUnique(t, k);
    assert t[..k] == s[lo..hi];
  }

  /** Stripping twice is stripping once. */
  lemma StripIdempotent(s: string)
    ensures Strip(Strip(s)) == Strip(s)
  {
    var r := Strip(s);
    assert r[..0] == [] && r[|r|..] == [] && r[0..|r|] == r;
    StripUnique(r, 0, |r|);
  }

  /** Leading whitespace makes no difference to `StripStart`. */
  lemma {:induction false} StripStartSkipsSpace(pre: string, s: string)
    requires AllSpace(pre)
    ensures StripStart(pre + s) == StripStart(s)
    decreases |pre|
  {
    if pre != [] {
      assert (pre + s)[0] == pre[0];
      assert (pre + s)[1..] == pre[1..] + s;
      assert AllSpace(pre[1..]) by {
        forall i | 0 <= i < |pre[1..]| ensures IsSpace(pre[1..][i]) { assert pre[1..][i] == pre[i + 1]; }
      }
      StripStartSkipsSpace(pre[1..], s);
    } else {
      assert pre + s == s;
    }
  }

  /** Text after a string that is not all whitespace survives
      `StripStart` untouched. */
  lemma {:induction false} StripStartKeepsTail(s: string, post: string)
    requires StripStart(s) != []
    ensures StripStart(s + post) == StripStart(s) + post
    decreases |s|
  {
    assert (s + post)[0] == s[0];
    if IsSpace(s[0]) {
      assert (s + post)[1..] == s[1..] + post;
      StripStartKeepsTail(s[1..], post);
    }
  }

  /** Trailing whitespace makes no difference to `StripEnd`. */
  lemma {:induction false} StripEndSkipsSpace(s: string, post: string)
    requires AllSpace(post)
    ensures StripEnd(s + post) == StripEnd(s)
    decreases |post|
  {
    if post != [] {
      var w := s + post;
      var post' := post[..|post| - 1];
      assert w[|w| - 1] == post[|post| - 1];
      assert w[..|w| - 1] == s + post';
      assert AllSpace(post') by {
        forall i | 0 <= i < |post'| ensures IsSpace(post'[i]) { assert post'[i] == post[i]; }
      }
      StripEndSkipsSpace(s, post');
    } else {
      assert s + post == s;
    }
  }

  /** Whitespace added around a string makes no difference to `Strip`. */
  lemma StripPadded(pre: string, s: string, post: string)
    requires AllSpace(pre) && AllSpace(post)
    ensures Strip(pre + s + post) == Strip(s)
  {
    assert pre + s + post == pre + (s + post);
    StripStartSkipsSpace(pre, s + post);
    if StripStart(s) != [] {
      StripStartKeepsTail(s, post);
      StripEndSkipsSpace(StripStart(s), post);
    } else {
      assert AllSpace(s) by { StripStartWindow(s); }
      StripStartSkipsSpace(s, post);
      StripStartSkipsSpace(post, []);
      assert post + [] == post;
    }
  }

  /** Stripping cannot create an occurrence of a pattern. */
  lemma StripKeepsAbsence(s: string, pat: string)
    requires pat != [] && !Contains(s, pat)
    ensures !Contains(Strip(s), pat)
  {
    StripWindow(s);
    var lo := |s| - |StripStart(s)|;
    if Contains(Strip(s), pat) {
      ContainsInSlice(s, lo, lo + |Strip(s)|, pat);
    }
  }

  /** Characters of the stripped string are characters of the original. */
  lemma StripKeepsChars(s: string, c: char)
    ensures c !in s ==> c !in Strip(s)
  {
    StripWindow(s);
  }
}
