/**
 * The string operations the crawler takes from Python's `str` and `re`:
 * whitespace, ASCII lower-casing, `strip`, the `\s+` -> " " rewrite,
 * maximal runs of characters (`re.findall` of a character class,
 * `str.split()`), and `" ".join`.
 */
module Text {

  /** Python's `str.isspace`, which is also what `\s` and `strip()` use. */
  predicate IsSpace(c: char) {
    var n := c as int;
    n == 0x20 || 0x09 <= n <= 0x0D || 0x1C <= n <= 0x1F || n == 0x85 || n == 0xA0
    || n == 0x1680 || 0x2000 <= n <= 0x200A || n == 0x2028 || n == 0x2029
    || n == 0x202F || n == 0x205F || n == 0x3000
  }

  /** A character of the token class `[a-zA-Z0-9]`. */
  predicate IsWordChar(c: char) {
    'a' <= c <= 'z' || 'A' <= c <= 'Z' || '0' <= c <= '9'
  }

  /** The two character classes that delimit runs: whitespace (for `split`) and non-word characters (for tokens). */
  datatype Separator = Whitespace | NonWord

  predicate Separates(sep: Separator, c: char) {
    match sep
    case Whitespace => IsSpace(c)
    case NonWord => !IsWordChar(c)
  }

  function LowerChar(c: char): char {
    if 'A' <= c <= 'Z' then (c as int + 32) as char else c
  }

  /** `str.lower()`, restricted to the ASCII letters. */
  function LowerStr(s: string): (r: string)
    ensures |r| == |s|
    ensures forall i :: 0 <= i < |s| ==> r[i] == LowerChar(s[i])
  {
    seq(|s|, i requires 0 <= i < |s| => LowerChar(s[i]))
  }

  predicate StartsWith(s: string, prefix: string) {
    |prefix| <= |s| && s[..|prefix|] == prefix
  }

  predicate EndsWith(s: string, suffix: string) {
    |suffix| <= |s| && s[|s| - |suffix|..] == suffix
  }

  /** Drops the leading characters that satisfy `sep`. */
  function DropWhile(s: string, sep: Separator): (r: string)
    ensures |r| <= |s|
    ensures forall i :: 0 <= i < |s| - |r| ==> Separates(sep, s[i])
    ensures r == [] || !Separates(sep, r[0])
  {
    if s != [] && Separates(sep, s[0]) then DropWhile(s[1..], sep) else s
  }

  /** Drops the trailing characters that satisfy `sep`. */
  function DropLastWhile(s: string, sep: Separator): (r: string)
    ensures |r| <= |s| && r == s[..|r|]
    ensures forall i :: |r| <= i < |s| ==> Separates(sep, s[i])
    ensures r == [] || !Separates(sep, r[|r| - 1])
  {
    if s != [] && Separates(sep, s[|s| - 1]) then DropLastWhile(s[..|s| - 1], sep) else s
  }

  /** The longest prefix of `s` that holds no character satisfying `sep`. */
  function Span(s: string, sep: Separator): (w: string)
    ensures |w| <= |s|
    ensures forall i :: 0 <= i < |w| ==> !Separates(sep, w[i])
    ensures |w| < |s| ==> Separates(sep, s[|w|])
  {
    if s == [] || Separates(sep, s[0]) then [] else [s[0]] + Span(s[1..], sep)
  }

  /** `str.strip()`: no whitespace at either end, and empty exactly for blank input. */
  function Strip(s: string): (r: string)
    ensures r == [] || (!IsSpace(r[0]) && !IsSpace(r[|r| - 1]))
    ensures r == [] <==> forall i :: 0 <= i < |s| ==> IsSpace(s[i])
    ensures exists i :: TrimmedAt(s, r, i)
  {
    var t := DropWhile(s, Whitespace);
    var r := DropLastWhile(t, Whitespace);
    DropWhileSuffix(s, Whitespace);
    TrimBothEnds(s, t, r);
    r
  }

  /** `r` is the slice of `s` starting at `i`, with only whitespace before and after it. */
  predicate TrimmedAt(s: string, r: string, i: int) {
    && 0 <= i <= |s| - |r| && r == s[i..i + |r|]
    && (forall k :: 0 <= k < i ==> IsSpace(s[k]))
    && (forall k :: i + |r| <= k < |s| ==> IsSpace(s[k]))
  }

  /** `re.sub(r"\s+", " ", s)`: every maximal run of whitespace becomes one space. */
  function Collapse(s: string): (r: string)
    ensures r == [] <==> s == []
    decreases |s|
  {
    if s == [] then []
    else if IsSpace(s[0]) then [' '] + Collapse(DropWhile(s[1..], Whitespace))
    else [s[0]] + Collapse(s[1..])
  }

  /**
   * The maximal runs of characters not satisfying `sep`, left to right:
   * `re.findall` of a character class, or `str.split()` for whitespace.
   */
  function Runs(s: string, sep: Separator): (r: seq<string>)
    ensures forall i :: 0 <= i < |r| ==> r[i] != [] && NoneOf(r[i], sep)
    decreases |s|
  {
    var t := DropWhile(s, sep);
    if t == [] then []
    else
      var w := Span(t, sep);
      [w] + Runs(t[|w|..], sep)
  }

  /**
   * The separator stretches around the runs of `Runs(s, sep)`: the one before
   * the first run, those between runs, and the one after the last run.
   */
  function Gaps(s: string, sep: Separator): (gaps: seq<string>)
    ensures gaps != []
    decreases |s|
  {
    var t := DropWhile(s, sep);
    var g := s[..|s| - |t|];
    if t == [] then [g]
    else
      var w := Span(t, sep);
      [g] + Gaps(t[|w|..], sep)
  }

  /** `gaps[0] + runs[0] + gaps[1] + … + runs[n - 1] + gaps[n]`. */
  function Interleave(gaps: seq<string>, runs: seq<string>): string
    requires |gaps| == |runs| + 1
  {
    if runs == [] then gaps[0] else gaps[0] + runs[0] + Interleave(gaps[1..], runs[1..])
  }

  /** No character of `w` satisfies `sep`. */
  predicate NoneOf(w: string, sep: Separator) {
    forall j :: 0 <= j < |w| ==> !Separates(sep, w[j])
  }

  /** `str.split()`: the whitespace-separated fields. */
  function Fields(s: string): seq<string> {
    Runs(s, Whitespace)
  }

  /** `re.findall(r"[a-zA-Z0-9]+", s)`. */
  function Tokens(s: string): (r: seq<string>)
    ensures forall i, j :: 0 <= i < |r| && 0 <= j < |r[i]| ==> IsWordChar(r[i][j])
    ensures forall i :: 0 <= i < |r| ==> r[i] != []
  {
    Runs(s, NonWord)
  }

  /** `" ".join(ws)`. */
  function JoinSpace(ws: seq<string>): string {
    if |ws| == 0 then []
    else if |ws| == 1 then ws[0]
    else ws[0] + " " + JoinSpace(ws[1..])
  }

  // ---------------------------------------------------------------------------
  // Lemmas
  // ---------------------------------------------------------------------------

  /** What `DropWhile` keeps is a suffix of its input. */
  lemma {:induction false} DropWhileSuffix(s: string, sep: Separator)
    ensures DropWhile(s, sep) == s[|s| - |DropWhile(s, sep)|..]
    decreases |s|
  {
    if s != [] && Separates(sep, s[0]) {
      DropWhileSuffix(s[1..], sep);
    }
  }

  /**
   * Cutting whitespace off the front of `s` (leaving `t`) and then off the
   * back of `t` (leaving `r`) leaves a slice of `s` with only whitespace
   * around it.
   */
  lemma TrimBothEnds(s: string, t: string, r: string)
    requires |t| <= |s| && t == s[|s| - |t|..]
    requires forall k :: 0 <= k < |s| - |t| ==> IsSpace(s[k])
    requires |r| <= |t| && r == t[..|r|]
    requires forall k :: |r| <= k < |t| ==> IsSpace(t[k])
    ensures TrimmedAt(s, r, |s| - |t|)
  {
    var i := |s| - |t|;
    forall k | i + |r| <= k < |s|
      ensures IsSpace(s[k])
    {
      assert s[k] == t[k - i];
    }
  }

  /** What `Span` takes is a prefix of its input. */
  lemma {:induction false} SpanPrefix(s: string, sep: Separator)
    ensures Span(s, sep) == s[..|Span(s, sep)|]
    decreases |s|
  {
    if s != [] && !Separates(sep, s[0]) {
      SpanPrefix(s[1..], sep);
    }
  }

  /**
   * `Runs` returns every maximal run, in order: the input is its runs
   * interleaved with stretches of separators, and every stretch between two
   * runs is non-empty. As every run is non-empty and separator-free, no two
   * runs could be merged and no character outside the runs is left out.
   */
  lemma {:induction false} RunsGaps(s: string, sep: Separator)
    ensures |Gaps(s, sep)| == |Runs(s, sep)| + 1
    ensures Interleave(Gaps(s, sep), Runs(s, sep)) == s
    ensures forall j, k :: 0 <= j < |Gaps(s, sep)| && 0 <= k < |Gaps(s, sep)[j]| ==> Separates(sep, Gaps(s, sep)[j][k])
    ensures forall j :: 0 < j < |Gaps(s, sep)| - 1 ==> Gaps(s, sep)[j] != []
    ensures s != [] && Separates(sep, s[0]) ==> Gaps(s, sep)[0] != []
    decreases |s|
  {
    var t := DropWhile(s, sep);
    if t == [] {
      NoRunsOneGap(s, sep);
    } else {
      var g, w, rest := FirstGapAndRun(s, sep);
      RunsGaps(rest, sep);
      var gs, rs := Gaps(rest, sep), Runs(rest, sep);
      assert Interleave([g] + gs, [w] + rs) == g + w + Interleave(gs, rs) by {
        assert ([g] + gs)[1..] == gs && ([w] + rs)[1..] == rs;
      }
    }
  }

  /** Input that is all separators has no runs and is one gap. */
  lemma NoRunsOneGap(s: string, sep: Separator)
    requires DropWhile(s, sep) == []
    ensures Runs(s, sep) == [] && Gaps(s, sep) == [s]
    ensures forall k :: 0 <= k < |s| ==> Separates(sep, s[k])
  {
    assert s[..|s|] == s;
  }

  /** Input with a run splits into the gap before it, the run, and the rest. */
  lemma FirstGapAndRun(s: string, sep: Separator) returns (g: string, w: string, rest: string)
    requires DropWhile(s, sep) != []
    ensures s == g + w + rest && |rest| < |s|
    ensures Gaps(s, sep) == [g] + Gaps(rest, sep) && Runs(s, sep) == [w] + Runs(rest, sep)
    ensures forall k :: 0 <= k < |g| ==> Separates(sep, g[k])
    ensures s != [] && Separates(sep, s[0]) ==> g != []
    ensures rest == [] || Separates(sep, rest[0])
  {
    var t := DropWhile(s, sep);
    g := s[..|s| - |t|];
    w := Span(t, sep);
    rest := t[|w|..];
    DropWhileSuffix(s, sep);
    SpanPrefix(t, sep);
    SplitAt(s, t, w);
  }

  /** A suffix `t` of `s` with a prefix `w` cuts `s` into three consecutive pieces. */
  lemma SplitAt(s: string, t: string, w: string)
    requires |t| <= |s| && t == s[|s| - |t|..]
    requires |w| <= |t| && w == t[..|w|]
    ensures s == s[..|s| - |t|] + w + t[|w|..]
  {
    var i := |s| - |t|;
    var r := s[..i] + w + t[|w|..];
    assert |r| == |s|;
    forall k | 0 <= k < |s|
      ensures r[k] == s[k]
    {
      if k >= i + |w| {
        assert r[k] == t[k - i];
      } else if k >= i {
        assert r[k] == w[k - i] == t[k - i];
      }
    }
  }

  lemma LowerCharKeepsSpace(c: char)
    ensures IsSpace(LowerChar(c)) == IsSpace(c)
  {
  }

  /** Lower-casing a lower-cased string changes nothing. */
  lemma LowerStrIdempotent(s: string)
    ensures LowerStr(LowerStr(s)) == LowerStr(s)
  {
    assert forall i :: 0 <= i < |s| ==> LowerChar(LowerChar(s[i])) == LowerChar(s[i]);
  }

  lemma LowerStrSlice(s: string, a: nat, b: nat)
    requires a <= b <= |s|
    ensures LowerStr(s)[a..b] == LowerStr(s[a..b])
  {
  }

  /** Lower-casing does not move whitespace, so it commutes with `strip`. */
  lemma {:induction false} DropWhileLower(s: string)
    ensures DropWhile(LowerStr(s), Whitespace) == LowerStr(DropWhile(s, Whitespace))
    decreases |s|
  {
    var l := LowerStr(s);
    if s == [] {
      assert l == [];
    } else {
      LowerCharKeepsSpace(s[0]);
      assert l[0] == LowerChar(s[0]);
      if IsSpace(s[0]) {
        calc {
          DropWhile(l, Whitespace);
          DropWhile(l[1..], Whitespace);
          { LowerStrSlice(s, 1, |s|); assert s[1..|s|] == s[1..]; assert l[1..|s|] == l[1..]; }
          DropWhile(LowerStr(s[1..]), Whitespace);
          { DropWhileLower(s[1..]); }
          LowerStr(DropWhile(s[1..], Whitespace));
        }
      } else {
        assert DropWhile(l, Whitespace) == l;
      }
    }
  }

  lemma {:induction false} DropLastWhileLower(s: string)
    ensures DropLastWhile(LowerStr(s), Whitespace) == LowerStr(DropLastWhile(s, Whitespace))
    decreases |s|
  {
    var l := LowerStr(s);
    if s == [] {
      assert l == [];
    } else {
      var n := |s| - 1;
      LowerCharKeepsSpace(s[n]);
      assert l[n] == LowerChar(s[n]);
      if IsSpace(s[n]) {
        calc {
          DropLastWhile(l, Whitespace);
          DropLastWhile(l[..n], Whitespace);
          { LowerStrSlice(s, 0, n); assert s[0..n] == s[..n]; assert l[0..n] == l[..n]; }
          DropLastWhile(LowerStr(s[..n]), Whitespace);
          { DropLastWhileLower(s[..n]); }
          LowerStr(DropLastWhile(s[..n], Whitespace));
        }
      } else {
        assert DropLastWhile(l, Whitespace) == l;
      }
    }
  }

  lemma StripLower(s: string)
    ensures Strip(LowerStr(s)) == LowerStr(Strip(s))
  {
    DropWhileLower(s);
    DropLastWhileLower(DropWhile(s, Whitespace));
  }

  lemma {:induction false} DropWhileAppend(v: string, x: string, sep: Separator)
    ensures DropWhile(v + x, sep) == if DropWhile(v, sep) == [] then DropWhile(x, sep) else DropWhile(v, sep) + x
    decreases |v|
  {
    if v != [] {
      assert (v + x)[0] == v[0];
      if Separates(sep, v[0]) {
        assert (v + x)[1..] == v[1..] + x;
        DropWhileAppend(v[1..], x, sep);
      }
    } else {
      assert v + x == x;
    }
  }

  lemma {:induction false} SpanAppendSep(t: string, c: char, sep: Separator)
    requires Separates(sep, c)
    ensures Span(t + [c], sep) == Span(t, sep)
    decreases |t|
  {
    if t == [] {
      assert t + [c] == [c];
    } else {
      assert (t + [c])[0] == t[0];
      if !Separates(sep, t[0]) {
        assert (t + [c])[1..] == t[1..] + [c];
        SpanAppendSep(t[1..], c, sep);
      }
    }
  }

  /** A trailing separator adds no run. */
  lemma {:induction false} RunsAppendSep(v: string, c: char, sep: Separator)
    requires Separates(sep, c)
    ensures Runs(v + [c], sep) == Runs(v, sep)
    decreases |v|
  {
    var t := DropWhile(v, sep);
    DropWhileAppend(v, [c], sep);
    assert DropWhile([c], sep) == DropWhile([c][1..], sep);
    if t != [] {
      var w := Span(t, sep);
      SpanAppendSep(t, c, sep);
      assert (t + [c])[|w|..] == t[|w|..] + [c];
      RunsAppendSep(t[|w|..], c, sep);
    }
  }

  lemma {:induction false} RunsDropLastWhile(v: string, sep: Separator)
    ensures Runs(DropLastWhile(v, sep), sep) == Runs(v, sep)
    decreases |v|
  {
    if v != [] && Separates(sep, v[|v| - 1]) {
      var v' := v[..|v| - 1];
      RunsDropLastWhile(v', sep);
      assert v == v' + [v[|v| - 1]];
      RunsAppendSep(v', v[|v| - 1], sep);
    }
  }

  lemma RunsDropWhile(v: string, sep: Separator)
    ensures Runs(DropWhile(v, sep), sep) == Runs(v, sep)
  {
    var t := DropWhile(v, sep);
    assert DropWhile(t, sep) == t;
  }

  /** Splitting ignores whitespace at both ends. */
  lemma FieldsStrip(v: string)
    ensures Fields(Strip(v)) == Fields(v)
  {
    RunsDropLastWhile(DropWhile(v, Whitespace), Whitespace);
    RunsDropWhile(v, Whitespace);
  }

  /** Collapsing passes a leading word through unchanged. */
  lemma {:induction false} CollapseSpan(s: string)
    ensures Collapse(s) == Span(s, Whitespace) + Collapse(s[|Span(s, Whitespace)|..])
    decreases |s|
  {
    if s != [] && !IsSpace(s[0]) {
      var w := Span(s[1..], Whitespace);
      CollapseSpan(s[1..]);
      assert Span(s, Whitespace) == [s[0]] + w;
      assert Collapse(s) == [s[0]] + Collapse(s[1..]);
      assert s[1..][|w|..] == s[|w| + 1..];
    } else if s != [] {
      assert Span(s, Whitespace) == [];
      assert s[0..] == s;
    } else {
      assert Span(s, Whitespace) == [];
    }
  }

  /** A whitespace gap collapses to one space, and does not change the fields that follow it. */
  lemma CollapseGap(rest: string)
    requires rest != [] && IsSpace(rest[0]) && !IsSpace(rest[|rest| - 1])
    ensures var r2 := DropWhile(rest, Whitespace);
      && r2 != [] && |r2| < |rest| && !IsSpace(r2[0]) && r2[|r2| - 1] == rest[|rest| - 1]
      && Collapse(rest) == [' '] + Collapse(r2)
      && Fields(rest) == Fields(r2) && Fields(r2) != []
  {
    var r2 := DropWhile(rest, Whitespace);
    assert DropWhile(rest[1..], Whitespace) == r2;
    DropWhileSuffix(rest, Whitespace);
    RunsDropWhile(rest, Whitespace);
    assert DropWhile(r2, Whitespace) == r2;
  }

  /**
   * On a string with no whitespace at either end, the `\s+` rewrite is the
   * same as joining its whitespace-separated fields with single spaces.
   */
  lemma {:induction false} CollapseStripped(s: string)
    requires s == [] || (!IsSpace(s[0]) && !IsSpace(s[|s| - 1]))
    ensures Collapse(s) == JoinSpace(Fields(s))
    decreases |s|
  {
    if s != [] {
      var w := Span(s, Whitespace);
      var rest := s[|w|..];
      assert DropWhile(s, Whitespace) == s;
      assert Fields(s) == [w] + Fields(rest);
      CollapseSpan(s);
      if rest == [] {
        assert Fields(rest) == [];
      } else {
        assert rest[|rest| - 1] == s[|s| - 1];
        CollapseGap(rest);
        var r2 := DropWhile(rest, Whitespace);
        CollapseStripped(r2);
        var fs := Fields(r2);
        assert ([w] + fs)[1..] == fs;
      }
    }
  }
}
