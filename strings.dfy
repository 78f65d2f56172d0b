/**
 * The Python string operations the blog pipeline relies on: `s.split(sep)`,
 * `sep.join(parts)`, `s.strip()` and `s.lower()`, with the predicate
 * `Contains` that their contracts use to say what a text holds.
 */
module Strings {
  import opened Wrappers

  /** `sep` occurs in `s` starting at index `k`. */
  predicate OccursAt(s: string, sep: string, k: int)
  {
    0 <= k && k + |sep| <= |s| && s[k..k + |sep|] == sep
  }

  /** `sep` occurs somewhere in `s`. */
  predicate Contains(s: string, sep: string)
  {
    exists k :: 0 <= k <= |s| - |sep| && OccursAt(s, sep, k)
  }

  /** An occurrence in a suffix `s[m..]` is an occurrence in `s`, shifted by `m`. */
  lemma OccursShift(s: string, sep: string, m: nat, j: nat)
    requires m <= |s|
    ensures OccursAt(s[m..], sep, j) <==> OccursAt(s, sep, m + j)
  {
    if 0 <= j && j + |sep| <= |s| - m {
      assert s[m..][j..j + |sep|] == s[m + j..m + j + |sep|];
    }
  }

  /** An occurrence that ends inside the prefix `s[..n]` is an occurrence in `s`. */
  lemma OccursInPrefix(s: string, sep: string, n: nat, j: int)
    requires n <= |s|
    ensures OccursAt(s[..n], sep, j) <==> (OccursAt(s, sep, j) && j + |sep| <= n)
  {
    if 0 <= j && j + |sep| <= n {
      assert s[..n][j..j + |sep|] == s[j..j + |sep|];
    }
  }

  /** `b` occurs in `a + b + c` right after `a`. */
  lemma OccursInfix(a: string, b: string, c: string)
    ensures OccursAt(a + b + c, b, |a|)
  {
    assert (a + b + c)[|a|..|a| + |b|] == b;
  }

  /** Whatever comes before `s` does not hide what `s` contains. */
  lemma ContainsAfter(a: string, s: string, x: string)
    requires Contains(s, x)
    ensures Contains(a + s, x)
  {
    var k :| 0 <= k <= |s| - |x| && OccursAt(s, x, k);
    OccursShift(a + s, x, |a|, k);
    assert (a + s)[|a|..] == s;
  }

  /** A string without `sep` has no prefix containing `sep`. */
  lemma NoneInPrefix(s: string, p: string, sep: string)
    requires p <= s && !Contains(s, sep)
    ensures !Contains(p, sep)
  {
    if Contains(p, sep) {
      var j :| OccursAt(p, sep, j);
      assert p == s[..|p|];
      OccursInPrefix(s, sep, |p|, j);
    }
  }

  /** For a one-character separator, `[c] in s` is `c in s`. */
  lemma ContainsChar(s: string, c: char)
    ensures Contains(s, [c]) <==> c in s
  {
    if c in s {
      var i :| 0 <= i < |s| && s[i] == c;
      assert s[i..i + 1] == [c];
      assert OccursAt(s, [c], i);
    }
    if Contains(s, [c]) {
      var i :| 0 <= i <= |s| - 1 && OccursAt(s, [c], i);
      assert s[i..i + 1] == [c];
      assert s[i] == c;
    }
  }

  /** A string that lacks the first character of `sep` cannot contain `sep`. */
  lemma MissingFirstChar(s: string, sep: string)
    requires sep != [] && sep[0] !in s
    ensures !Contains(s, sep)
  {
  }

  /**
   * The index of the leftmost occurrence of `sep` in `s`, None when there is
   * none: the position Python's `s.split(sep)` cuts at first.
   */
  function FindFirst(s: string, sep: string): (r: Option<nat>)
    requires |sep| > 0
    ensures r.Some? ==> OccursAt(s, sep, r.value)
    ensures r.Some? ==> forall k :: 0 <= k < r.value ==> !OccursAt(s, sep, k)
    ensures r.None? <==> !Contains(s, sep)
    decreases |s|
  {
    if |s| < |sep| then
      None
    else if s[..|sep|] == sep then
      assert OccursAt(s, sep, 0);
      Some(0)
    else
      var rest := FindFirst(s[1..], sep);
      forall j | 1 <= j
        ensures OccursAt(s, sep, j) <==> OccursAt(s[1..], sep, j - 1)
      {
        OccursShift(s, sep, 1, j - 1);
      }
      match rest
      case None => None
      case Some(k) => Some(k + 1)
  }

  /** Python's `sep.join(parts)`. */
  function Join(sep: string, parts: seq<string>): string
  {
    if |parts| == 0 then ""
    else if |parts| == 1 then parts[0]
    else parts[0] + sep + Join(sep, parts[1..])
  }

  /**
   * Python's `s.split(sep)` for a non-empty separator: the pieces between the
   * occurrences of `sep`, found left to right without overlap.
   */
  function Split(s: string, sep: string): (pieces: seq<string>)
    requires |sep| > 0
    ensures pieces != []
    ensures forall i :: 0 <= i < |pieces| ==> !Contains(pieces[i], sep)
    ensures Join(sep, pieces) == s
    decreases |s|
  {
    match FindFirst(s, sep)
    case None => [s]
    case Some(k) =>
      var rest := Split(s[k + |sep|..], sep);
      assert !Contains(s[..k], sep) by {
        if Contains(s[..k], sep) {
          var j :| OccursAt(s[..k], sep, j);
          OccursInPrefix(s, sep, k, j);
        }
      }
      assert s == s[..k] + sep + s[k + |sep|..] by {
        assert s[k..k + |sep|] == sep;
      }
      [s[..k]] + rest
  }

  /** Python's `s.split(sep)[0]`: the text before the first `sep`. */
  function BeforeFirst(s: string, sep: string): (r: string)
    requires |sep| > 0
    ensures r <= s && !Contains(r, sep)
    ensures r == s || OccursAt(s, sep, |r|)
    ensures !Contains(s, sep) ==> r == s
  {
    var pieces := Split(s, sep);
    pieces[0]
  }

  /** Python's `s.split(sep)[-1]`: the text after the last `sep`. */
  function AfterLast(s: string, sep: string): (r: string)
    requires |sep| > 0
    ensures !Contains(r, sep)
    ensures !Contains(s, sep) ==> r == s
  {
    var pieces := Split(s, sep);
    pieces[|pieces| - 1]
  }

  /** Past the first `sep`, Split goes on with the rest of `s`. */
  lemma SplitAtFirst(s: string, sep: string, k: nat)
    requires |sep| > 0 && FindFirst(s, sep) == Some(k)
    ensures Split(s, sep) == [s[..k]] + Split(s[k + |sep|..], sep)
  {
  }

  /** Past the first `sep`, the text after the last `sep` is found in the rest of `s`. */
  lemma AfterLastAtFirst(s: string, sep: string, k: nat)
    requires |sep| > 0 && FindFirst(s, sep) == Some(k)
    ensures AfterLast(s, sep) == AfterLast(s[k + |sep|..], sep)
  {
    var rest := Split(s[k + |sep|..], sep);
    var pieces := Split(s, sep);
    SplitAtFirst(s, sep, k);
    assert |pieces| - 1 == |rest|;
    assert pieces[|rest|] == rest[|rest| - 1];
  }

  /**
   * When `sep` has two different characters, so that two occurrences never
   * overlap, the text after the last `sep` of `h + sep + t` is `t` whenever
   * `t` holds no `sep`, whatever `h` is.
   */
  lemma {:induction false} AfterLastOf(h: string, sep: string, t: string)
    requires |sep| == 2 && sep[0] != sep[1]
    requires !Contains(t, sep)
    ensures AfterLast(h + sep + t, sep) == t
    decreases |h|
  {
    var k := FirstSeparator(h, sep, t);
    AfterLastAtFirst(h + sep + t, sep, k);
    DropFromConcat(h, sep, t, k + 2);
    if k + 2 <= |h| {
      AfterLastOf(h[k + 2..], sep, t);
    }
  }

  /** Dropping a prefix of `h + sep + t` that ends in `h` or right after `sep`. */
  lemma DropFromConcat(h: string, sep: string, t: string, j: nat)
    requires j <= |h| || j == |h| + |sep|
    ensures j <= |h| ==> (h + sep + t)[j..] == h[j..] + sep + t
    ensures j == |h| + |sep| ==> (h + sep + t)[j..] == t
  {
  }

  /**
   * The first `sep` in `h + sep + t`, for a `sep` of two different characters,
   * is the one after `h` or lies wholly inside `h`.
   */
  lemma FirstSeparator(h: string, sep: string, t: string) returns (k: nat)
    requires |sep| == 2 && sep[0] != sep[1]
    ensures FindFirst(h + sep + t, sep) == Some(k)
    ensures k == |h| || k + 2 <= |h|
  {
    var s := h + sep + t;
    OccursInfix(h, sep, t);
    k := FindFirst(s, sep).value;
    assert k <= |h|;
    assert s[k..k + 2] == sep;
    assert s[k + 1] == sep[1] && s[|h|] == sep[0];
  }

  /**
   * For a one-character separator, the text before the first `sep` of
   * `p + rest` is `p` when `p` holds no `sep` and `rest` is empty or starts
   * with `sep`.
   */
  lemma BeforeFirstOf(p: string, sep: string, rest: string)
    requires |sep| == 1 && !Contains(p, sep)
    requires rest == [] || rest[0] == sep[0]
    ensures BeforeFirst(p + rest, sep) == p
  {
    var s := p + rest;
    if rest == [] {
      assert s == p;
    } else {
      assert OccursAt(s, sep, |p|) by {
        assert s[|p|..|p| + 1] == [rest[0]] == sep;
      }
      var k := FindFirst(s, sep).value;
      if k < |p| {
        OccursInPrefix(s, sep, |p|, k);
      }
      assert Split(s, sep)[0] == s[..|p|] == p;
    }
  }

  /** The first occurrence of `[c]` in `a + [c] + b` is at `|a|` when `a` holds no `c`. */
  lemma FindFirstChar(a: string, c: char, b: string)
    requires c !in a
    ensures FindFirst(a + [c] + b, [c]) == Some(|a|)
  {
    var s := a + [c] + b;
    OccursInfix(a, [c], b);
    assert Contains(s, [c]);
    var k := FindFirst(s, [c]).value;
    assert s[k..k + 1] == [c];
    assert s[k] == c;
  }

  /**
   * Joining with a one-character separator loses nothing when no part holds
   * that character: splitting the result gives the parts back, in order.
   */
  lemma {:induction false} SplitJoin(c: char, parts: seq<string>)
    requires |parts| >= 1
    requires forall i :: 0 <= i < |parts| ==> c !in parts[i]
    ensures Split(Join([c], parts), [c]) == parts
    decreases |parts|
  {
    if |parts| == 1 {
      ContainsChar(parts[0], c);
    } else {
      var rest := Join([c], parts[1..]);
      var s := Join([c], parts);
      assert s == parts[0] + [c] + rest;
      FindFirstChar(parts[0], c, rest);
      assert s[|parts[0]| + 1..] == rest;
      assert s[..|parts[0]|] == parts[0];
      assert Split(s, [c]) == [parts[0]] + Split(rest, [c]);
      SplitJoin(c, parts[1..]);
      assert parts == [parts[0]] + parts[1..];
    }
  }

  /** The characters Python's `str.isspace()` accepts. */
  predicate IsSpace(c: char)
  {
    var n := c as int;
    (9 <= n <= 13) || (28 <= n <= 32) || n == 0x85 || n == 0xA0 || n == 0x1680
    || (0x2000 <= n <= 0x200A) || n == 0x2028 || n == 0x2029 || n == 0x202F
    || n == 0x205F || n == 0x3000
  }

  predicate AllSpace(s: string)
  {
    forall i :: 0 <= i < |s| ==> IsSpace(s[i])
  }

  /** Neither end of `s` is whitespace. */
  predicate Trimmed(s: string)
  {
    s == [] || (!IsSpace(s[0]) && !IsSpace(s[|s| - 1]))
  }

  /** `s` is `core` with whitespace, possibly none, on either side. */
  ghost predicate Padded(s: string, core: string)
  {
    exists pre, post :: s == pre + core + post && AllSpace(pre) && AllSpace(post)
  }

  /** `s` is `r` with whitespace, possibly none, before it. */
  predicate SpaceBefore(s: string, r: string)
  {
    |r| <= |s| && s[|s| - |r|..] == r && AllSpace(s[..|s| - |r|])
  }

  /** `s` is `r` with whitespace, possibly none, after it. */
  predicate SpaceAfter(s: string, r: string)
  {
    |r| <= |s| && s[..|r|] == r && AllSpace(s[|r|..])
  }

  /** `s` without its leading whitespace. */
  function TrimStart(s: string): string
    decreases |s|
  {
    if |s| > 0 && IsSpace(s[0]) then TrimStart(s[1..]) else s
  }

  /** TrimStart removes a run of whitespace and stops at the first other character. */
  lemma {:induction false} TrimStartSpec(s: string)
    ensures SpaceBefore(s, TrimStart(s))
    ensures TrimStart(s) == [] || !IsSpace(TrimStart(s)[0])
    decreases |s|
  {
    if |s| > 0 && IsSpace(s[0]) {
      var r := TrimStart(s[1..]);
      TrimStartSpec(s[1..]);
      var pre := s[1..][..|s[1..]| - |r|];
      assert s[..|s| - |r|] == [s[0]] + pre;
      AllSpaceCons(s[0], pre);
      assert s[|s| - |r|..] == s[1..][|s[1..]| - |r|..];
    } else {
      assert s[..|s| - |s|] == [];
    }
  }

  lemma AllSpaceCons(c: char, a: string)
    requires IsSpace(c) && AllSpace(a)
    ensures AllSpace([c] + a)
  {
    forall i | 0 <= i < |[c] + a|
      ensures IsSpace(([c] + a)[i])
    {
      if i > 0 {
        assert ([c] + a)[i] == a[i - 1];
      }
    }
  }

  lemma AllSpaceSnoc(a: string, c: char)
    requires AllSpace(a) && IsSpace(c)
    ensures AllSpace(a + [c])
  {
    forall i | 0 <= i < |a + [c]|
      ensures IsSpace((a + [c])[i])
    {
      if i < |a| {
        assert (a + [c])[i] == a[i];
      }
    }
  }

  /** `s` without its trailing whitespace. */
  function TrimEnd(s: string): string
    decreases |s|
  {
    if |s| > 0 && IsSpace(s[|s| - 1]) then TrimEnd(s[..|s| - 1]) else s
  }

  /** TrimEnd removes a run of whitespace and stops at the last other character. */
  lemma {:induction false} TrimEndSpec(s: string)
    ensures SpaceAfter(s, TrimEnd(s))
    ensures TrimEnd(s) == [] || !IsSpace(TrimEnd(s)[|TrimEnd(s)| - 1])
    decreases |s|
  {
    if |s| > 0 && IsSpace(s[|s| - 1]) {
      var init := s[..|s| - 1];
      var r := TrimEnd(init);
      TrimEndSpec(init);
      var post := init[|r|..];
      assert s[|r|..] == post + [s[|s| - 1]];
      AllSpaceSnoc(post, s[|s| - 1]);
      assert s[..|r|] == init[..|r|];
    } else {
      assert s[|s|..] == [];
    }
  }

  /** Python's `s.strip()`: `s` without whitespace at either end. */
  function Strip(s: string): string
  {
    TrimEnd(TrimStart(s))
  }

  /** The stripped text has no whitespace at its ends, and `s` is that text padded with whitespace. */
  lemma StripSpec(s: string)
    ensures Trimmed(Strip(s)) && Padded(s, Strip(s))
  {
    StripEnds(s);
    StripPads(s);
  }

  lemma StripEnds(s: string)
    ensures Trimmed(Strip(s))
  {
    var t := TrimStart(s);
    var r := TrimEnd(t);
    TrimStartSpec(s);
    TrimEndSpec(t);
    if r != [] {
      assert r[0] == t[0];
    }
  }

  lemma StripPads(s: string)
    ensures Padded(s, Strip(s))
  {
    var t := TrimStart(s);
    var r := TrimEnd(t);
    TrimStartSpec(s);
    TrimEndSpec(t);
    Around(s, t, r);
  }

  /** `s` is what precedes its suffix `t`, then the prefix `r` of `t`, then the rest of `t`. */
  lemma Around(s: string, t: string, r: string)
    requires |t| <= |s| && s[|s| - |t|..] == t
    requires |r| <= |t| && t[..|r|] == r
    ensures s == s[..|s| - |t|] + r + t[|r|..]
  {
    assert s == s[..|s| - |t|] + t;
    assert t == r + t[|r|..];
  }

  lemma {:induction false} TrimStartPadded(pre: string, rest: string)
    requires AllSpace(pre) && (rest == [] || !IsSpace(rest[0]))
    ensures TrimStart(pre + rest) == rest
    decreases |pre|
  {
    if pre != [] {
      assert (pre + rest)[1..] == pre[1..] + rest;
      TrimStartPadded(pre[1..], rest);
    } else {
      assert pre + rest == rest;
    }
  }

  lemma {:induction false} TrimEndPadded(rest: string, post: string)
    requires AllSpace(post) && (rest == [] || !IsSpace(rest[|rest| - 1]))
    ensures TrimEnd(rest + post) == rest
    decreases |post|
  {
    if post != [] {
      var s := rest + post;
      assert s[..|s| - 1] == rest + post[..|post| - 1];
      TrimEndPadded(rest, post[..|post| - 1]);
    } else {
      assert rest + post == rest;
    }
  }

  /**
   * Stripping recovers the core of any padded string: together with
   * StripSpec, Strip(s) is the one trimmed text that `s` pads.
   */
  lemma StripPadded(pre: string, core: string, post: string)
    requires AllSpace(pre) && AllSpace(post) && core != [] && Trimmed(core)
    ensures Strip(pre + core + post) == core
  {
    assert pre + core + post == pre + (core + post);
    TrimStartPadded(pre, core + post);
    TrimEndPadded(core, post);
  }

  /** Python's `c.lower()` on one character, for the ASCII letters. */
  function LowerChar(c: char): char
  {
    if 'A' <= c <= 'Z' then (c as int + 32) as char else c
  }

  /** Python's `s.lower()`, character by character. */
  function Lower(s: string): string
  {
    if s == [] then [] else [LowerChar(s[0])] + Lower(s[1..])
  }

  /** Lower-casing maps each character in place. */
  lemma {:induction false} LowerSpec(s: string)
    ensures |Lower(s)| == |s|
    ensures forall i :: 0 <= i < |s| ==> Lower(s)[i] == LowerChar(s[i])
  {
    if s != [] {
      LowerSpec(s[1..]);
    }
  }
}
