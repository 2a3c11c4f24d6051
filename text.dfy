/**
  The text normalisers of the customer scraper: whitespace cleaning, slugs,
  delimiter-aware list splitting and integer extraction.

  Strings are sequences of characters. Case mapping and the character classes
  of the regular expressions are modelled on ASCII (plus the typographic
  apostrophe U+2019 that the slug pattern names explicitly).
*/
module Text {
  import opened Wrappers

  // ---------- character classes ----------

  /** `\s` and `str.strip()` on ASCII: tab, line feed, vertical tab, form feed,
      carriage return, the separators U+001C..U+001F, and space. */
  predicate IsSpace(c: char) {
    c == ' ' || ('\t' <= c <= '\r') || ('\U{1C}' <= c <= '\U{1F}')
  }

  predicate IsDigit(c: char) { '0' <= c <= '9' }

  /** `[a-z0-9]` */
  predicate IsSlugChar(c: char) { 'a' <= c <= 'z' || IsDigit(c) }

  /** `[^a-z0-9]` */
  predicate NotSlugChar(c: char) { !IsSlugChar(c) }

  predicate IsUnderscore(c: char) { c == '_' }

  predicate IsComma(c: char) { c == ',' }

  /** `[’'`]` */
  predicate IsQuote(c: char) { c == '’' || c == '\'' || c == '`' }

  /** `\w` on ASCII. */
  predicate IsWordChar(c: char) { 'a' <= c <= 'z' || 'A' <= c <= 'Z' || IsDigit(c) || c == '_' }

  function LowerChar(c: char): char {
    if 'A' <= c <= 'Z' then (c as int + 32) as char else c
  }

  /** `str.lower()` on ASCII. */
  function Lower(s: string): (r: string)
    ensures |r| == |s| && forall i :: 0 <= i < |s| ==> r[i] == LowerChar(s[i])
  {
    seq(|s|, i requires 0 <= i < |s| => LowerChar(s[i]))
  }

  predicate AllSpace(s: string) {
    forall i :: 0 <= i < |s| ==> IsSpace(s[i])
  }

  // ---------- substrings ----------

  predicate StartsWith(s: string, p: string) {
    |p| <= |s| && s[..|p|] == p
  }

  predicate EndsWith(s: string, p: string) {
    |p| <= |s| && s[|s| - |p|..] == p
  }

  /** Python's `p in s` for a non-empty `p`. */
  predicate Contains(s: string, p: string) {
    exists i :: 0 <= i <= |s| && OccursAt(s, p, i)
  }

  predicate OccursAt(s: string, p: string, i: nat) {
    i + |p| <= |s| && s[i..i + |p|] == p
  }

  // ---------- filtering, trimming and run replacement ----------

  /** The characters of `s` that do not satisfy `drop`, in order. */
  function Without(s: string, drop: char -> bool): string {
    if s == [] then [] else (if drop(s[0]) then [] else [s[0]]) + Without(s[1..], drop)
  }

  lemma {:induction false} WithoutAppend(a: string, b: string, drop: char -> bool)
    ensures Without(a + b, drop) == Without(a, drop) + Without(b, drop)
  {
    if a != [] {
      var head := if drop(a[0]) then [] else [a[0]];
      assert (a + b)[0] == a[0] && (a + b)[1..] == a[1..] + b;
      assert Without(a + b, drop) == head + Without(a[1..] + b, drop);
      WithoutAppend(a[1..], b, drop);
      assert Without(a, drop) == head + Without(a[1..], drop);
      assert head + (Without(a[1..], drop) + Without(b, drop))
          == (head + Without(a[1..], drop)) + Without(b, drop);
    } else {
      assert a + b == b;
    }
  }

  lemma {:induction false} WithoutAll(s: string, drop: char -> bool)
    requires forall i :: 0 <= i < |s| ==> drop(s[i])
    ensures Without(s, drop) == []
  {
    if s != [] {
      WithoutAll(s[1..], drop);
    }
  }

  lemma {:induction false} WithoutNone(s: string, drop: char -> bool)
    requires forall i :: 0 <= i < |s| ==> !drop(s[i])
    ensures Without(s, drop) == s
  {
    if s != [] {
      WithoutNone(s[1..], drop);
    }
  }

  lemma {:induction false} WithoutEmpty(s: string, drop: char -> bool)
    ensures Without(s, drop) == [] <==> forall i :: 0 <= i < |s| ==> drop(s[i])
  {
    if s != [] {
      WithoutEmpty(s[1..], drop);
      if !drop(s[0]) {
        assert Without(s, drop)[0] == s[0];
      } else {
        assert forall i :: 1 <= i < |s| ==> s[i] == s[1..][i - 1];
      }
    }
  }

  /** The first index at or after `i` whose character does not satisfy `drop`
      (or `|s|`). */
  function FirstKept(s: string, drop: char -> bool, i: nat): (a: nat)
    requires i <= |s|
    ensures i <= a <= |s| && (a == |s| || !drop(s[a]))
    ensures forall k :: i <= k < a ==> drop(s[k])
    decreases |s| - i
  {
    if i < |s| && drop(s[i]) then FirstKept(s, drop, i + 1) else i
  }

  /** `FirstKept` is the only index with its two properties. */
  lemma FirstKeptIs(s: string, drop: char -> bool, i: nat, a: nat)
    requires i <= a <= |s| && (a == |s| || !drop(s[a]))
    requires forall k :: i <= k < a ==> drop(s[k])
    ensures FirstKept(s, drop, i) == a
  {
  }

  /** The end of `s[..j]` once its trailing characters that satisfy `drop`
      are removed. */
  function LastKept(s: string, drop: char -> bool, j: nat): (b: nat)
    requires j <= |s|
    ensures b <= j && (b == 0 || !drop(s[b - 1]))
    ensures forall k :: b <= k < j ==> drop(s[k])
  {
    if j > 0 && drop(s[j - 1]) then LastKept(s, drop, j - 1) else j
  }

  /** The number of leading characters that satisfy `drop`. */
  function Lead(s: string, drop: char -> bool): nat
    ensures Lead(s, drop) <= |s|
  {
    FirstKept(s, drop, 0)
  }

  /** `s.strip(chars)` where `drop` is the set of stripped characters. */
  function Trim(s: string, drop: char -> bool): (r: string)
    ensures r == [] || (!drop(r[0]) && !drop(r[|r| - 1]))
    ensures Lead(s, drop) + |r| <= |s| && r == s[Lead(s, drop)..Lead(s, drop) + |r|]
  {
    var a := FirstKept(s, drop, 0);
    var b := LastKept(s, drop, |s|);
    if b <= a then [] else s[a..b]
  }

  /** What `Trim` removes are characters that satisfy `drop`. */
  lemma TrimDropped(s: string, drop: char -> bool)
    ensures forall i :: 0 <= i < Lead(s, drop) ==> drop(s[i])
    ensures forall i :: Lead(s, drop) + |Trim(s, drop)| <= i < |s| ==> drop(s[i])
  {
  }

  lemma {:induction false} WithoutTrim(s: string, drop: char -> bool)
    ensures Without(Trim(s, drop), drop) == Without(s, drop)
  {
    var r := Trim(s, drop);
    var a := Lead(s, drop);
    TrimDropped(s, drop);
    var pre, post := s[..a], s[a + |r|..];
    assert s == pre + r + post;
    WithoutAppend(pre + r, post, drop);
    WithoutAppend(pre, r, drop);
    WithoutAll(pre, drop);
    WithoutAll(post, drop);
  }

  lemma {:induction false} TrimUnchanged(s: string, drop: char -> bool)
    requires s == [] || (!drop(s[0]) && !drop(s[|s| - 1]))
    ensures Trim(s, drop) == s
  {
  }

  /** Python's `str.strip()`. */
  function Strip(s: string): string {
    Trim(s, IsSpace)
  }

  /** No run of characters satisfying `inRun` is longer than one, and every
      such character is `rep`. */
  predicate SingleRuns(s: string, inRun: char -> bool, rep: char) {
    forall i :: 0 <= i < |s| && inRun(s[i]) ==> s[i] == rep && (i + 1 < |s| ==> !inRun(s[i + 1]))
  }

  lemma SingleRunsSlice(s: string, inRun: char -> bool, rep: char, a: nat, b: nat)
    requires a <= b <= |s| && SingleRuns(s, inRun, rep)
    ensures SingleRuns(s[a..b], inRun, rep)
  {
    var t := s[a..b];
    forall i | 0 <= i < |t| && inRun(t[i])
      ensures t[i] == rep && (i + 1 < |t| ==> !inRun(t[i + 1]))
    {
      assert t[i] == s[a + i];
      if i + 1 < |t| {
        assert t[i + 1] == s[a + i + 1];
      }
    }
  }

  /** `re.sub(P + "+", rep, s)` where `P` is the class `inRun`: every maximal
      run of characters of the class becomes the one character `rep`. */
  function ReplaceRuns(s: string, inRun: char -> bool, rep: char): (r: string)
    decreases |s|
  {
    if s == [] then []
    else if inRun(s[0]) then [rep] + ReplaceRuns(s[FirstKept(s, inRun, 1)..], inRun, rep)
    else [s[0]] + ReplaceRuns(s[1..], inRun, rep)
  }

  lemma {:induction false} ReplaceRunsHead(s: string, inRun: char -> bool, rep: char)
    requires inRun(rep)
    ensures ReplaceRuns(s, inRun, rep) == [] <==> s == []
    ensures s != [] ==> (inRun(ReplaceRuns(s, inRun, rep)[0]) <==> inRun(s[0]))
  {
  }

  /** After the replacement every run of the class has length one. */
  lemma {:induction false} ReplaceRunsSingle(s: string, inRun: char -> bool, rep: char)
    requires inRun(rep)
    ensures SingleRuns(ReplaceRuns(s, inRun, rep), inRun, rep)
    decreases |s|
  {
    if s != [] {
      var r := ReplaceRuns(s, inRun, rep);
      if inRun(s[0]) {
        var t := s[FirstKept(s, inRun, 1)..];
        ReplaceRunsSingle(t, inRun, rep);
        ReplaceRunsHead(t, inRun, rep);
        assert r == [rep] + ReplaceRuns(t, inRun, rep);
      } else {
        ReplaceRunsSingle(s[1..], inRun, rep);
        assert r == [s[0]] + ReplaceRuns(s[1..], inRun, rep);
      }
    }
  }

  /** The replacement keeps every character outside the class, in order. */
  lemma {:induction false} ReplaceRunsWithout(s: string, inRun: char -> bool, rep: char)
    requires inRun(rep)
    ensures Without(ReplaceRuns(s, inRun, rep), inRun) == Without(s, inRun)
    decreases |s|
  {
    if s != [] {
      if inRun(s[0]) {
        var k := FirstKept(s, inRun, 1);
        var t := s[k..];
        var rest := ReplaceRuns(t, inRun, rep);
        ReplaceRunsWithout(t, inRun, rep);
        var dropped := s[..k];
        assert s == dropped + t;
        WithoutAppend(dropped, t, inRun);
        WithoutAll(dropped, inRun);
        assert Without([rep] + rest, inRun) == Without(rest, inRun) by {
          assert ([rep] + rest)[1..] == rest;
        }
      } else {
        var rest := ReplaceRuns(s[1..], inRun, rep);
        ReplaceRunsWithout(s[1..], inRun, rep);
        assert ([s[0]] + rest)[1..] == rest;
      }
    }
  }

  lemma {:induction false} ReplaceRunsUnchanged(s: string, inRun: char -> bool, rep: char)
    requires inRun(rep) && SingleRuns(s, inRun, rep)
    ensures ReplaceRuns(s, inRun, rep) == s
    decreases |s|
  {
    if s != [] {
      SingleRunsSlice(s, inRun, rep, 1, |s|);
      ReplaceRunsUnchanged(s[1..], inRun, rep);
    }
  }

  // ---------- clean ----------

  /** A cleaned text: non-empty, no whitespace at either end, and every
      whitespace character is a single space between two non-space ones. */
  predicate IsClean(t: string) {
    t != [] && !IsSpace(t[0]) && !IsSpace(t[|t| - 1]) && SingleRuns(t, IsSpace, ' ')
  }

  lemma StripClean(s: string)
    requires SingleRuns(s, IsSpace, ' ') && Strip(s) != []
    ensures IsClean(Strip(s))
  {
    var r := Strip(s);
    var a := Lead(s, IsSpace);
    SingleRunsSlice(s, IsSpace, ' ', a, a + |r|);
  }

  /** `clean` (scrape_regular_customers.py): collapse every whitespace run to
      one space and strip; absent for an absent, empty or blank text. The
      result keeps every non-whitespace character, in order. */
  function Clean(text: Option<string>): (r: Option<string>)
    ensures r.None? <==> text.None? || AllSpace(text.value)
    ensures r.Some? ==> IsClean(r.value) && Without(r.value, IsSpace) == Without(text.value, IsSpace)
  {
    if text.None? || text.value == [] then None
    else
      var c := ReplaceRuns(text.value, IsSpace, ' ');
      ReplaceRunsWithout(text.value, IsSpace, ' ');
      ReplaceRunsSingle(text.value, IsSpace, ' ');
      var t := Strip(c);
      WithoutTrim(c, IsSpace);
      WithoutEmpty(t, IsSpace);
      WithoutEmpty(text.value, IsSpace);
      if t == [] then None
      else
        StripClean(c);
        Some(t)
  }

  /** Cleaning a cleaned text changes nothing. */
  lemma {:induction false} CleanUnchanged(t: string)
    requires IsClean(t)
    ensures Clean(Some(t)) == Some(t)
  {
    ReplaceRunsUnchanged(t, IsSpace, ' ');
    TrimUnchanged(t, IsSpace);
  }

  lemma CleanIdempotent(text: Option<string>)
    ensures Clean(Clean(text)) == Clean(text)
  {
    if Clean(text).Some? {
      CleanUnchanged(Clean(text).value);
    }
  }

  // ---------- pieces: split on a character class ----------

  /** No character of the class `sep`. */
  predicate Outside(w: string, sep: char -> bool) {
    forall i :: 0 <= i < |w| ==> !sep(w[i])
  }

  /** Only characters of the class `sep`. */
  predicate AllIn(s: string, sep: char -> bool) {
    forall i :: 0 <= i < |s| ==> sep(s[i])
  }

  /** One piece of a text split on the class `sep`: non-empty and without
      a character of the class. */
  predicate IsPiece(w: string, sep: char -> bool) {
    w != [] && Outside(w, sep)
  }

  /** The end of the run starting at `i` of characters of the class `sep`
      (`inSep`) or outside it (`!inSep`). */
  function RunEnd(s: string, i: nat, sep: char -> bool, inSep: bool): (e: nat)
    requires i <= |s|
    ensures i <= e <= |s| && (e == |s| || sep(s[e]) != inSep)
    ensures forall k :: i <= k < e ==> sep(s[k]) == inSep
    decreases |s| - i
  {
    if i < |s| && sep(s[i]) == inSep then RunEnd(s, i + 1, sep, inSep) else i
  }

  /** The maximal runs of characters outside the class `sep`, in order:
      Python's `s.split()` for whitespace, `re.findall(r"[a-z0-9]+", s)` for
      the slug characters. */
  function Pieces(s: string, sep: char -> bool): (r: seq<string>)
    ensures r == [] <==> AllIn(s, sep)
    ensures forall k :: 0 <= k < |r| ==> IsPiece(r[k], sep)
    decreases |s|
  {
    var a := RunEnd(s, 0, sep, true);
    if a == |s| then []
    else
      var b := RunEnd(s, a, sep, false);
      [s[a..b]] + Pieces(s[b..], sep)
  }

  /** `RunEnd` is the only index with its two properties. */
  lemma RunEndIs(s: string, i: nat, sep: char -> bool, inSep: bool, e: nat)
    requires i <= e <= |s| && (e == |s| || sep(s[e]) != inSep)
    requires forall k :: i <= k < e ==> sep(s[k]) == inSep
    ensures RunEnd(s, i, sep, inSep) == e
    decreases |s| - i
  {
    if i < e {
      RunEndIs(s, i + 1, sep, inSep, e);
    }
  }

  /** `RunEnd` on `p + s` is `RunEnd` on `s`, shifted by `|p|`. */
  lemma RunEndShift(p: string, s: string, i: nat, sep: char -> bool, inSep: bool)
    requires i <= |s|
    ensures RunEnd(p + s, |p| + i, sep, inSep) == |p| + RunEnd(s, i, sep, inSep)
  {
    var e := RunEnd(s, i, sep, inSep);
    var u := p + s;
    assert forall k :: |p| + i <= k < |p| + e ==> u[k] == s[k - |p|];
    if e < |s| {
      assert u[|p| + e] == s[e];
    }
    RunEndIs(u, |p| + i, sep, inSep, |p| + e);
  }

  /** One step of `Pieces`: the piece `w` at `a..b` comes first and the
      pieces of the rest follow. */
  lemma PiecesStep(u: string, sep: char -> bool, a: nat, b: nat, w: string, rest: string)
    requires a < |u| && RunEnd(u, 0, sep, true) == a && RunEnd(u, a, sep, false) == b
    requires w == u[a..b] && rest == u[b..]
    ensures Pieces(u, sep) == [w] + Pieces(rest, sep)
  {
  }

  /** Slices of `s` are slices of `p + s`, shifted by `|p|`. */
  lemma SliceShift(p: string, s: string, a: nat, b: nat)
    requires a <= b <= |s|
    ensures (p + s)[|p| + a..|p| + b] == s[a..b] && (p + s)[|p| + b..] == s[b..]
  {
  }

  /** Leading separators are part of the first separator run. */
  lemma LeadShift(sp: string, s: string, sep: char -> bool)
    requires AllIn(sp, sep)
    ensures RunEnd(sp + s, 0, sep, true) == |sp| + RunEnd(s, 0, sep, true)
  {
    var u := sp + s;
    assert forall k :: 0 <= k < |sp| ==> u[k] == sp[k];
    RunEndShift(sp, s, 0, sep, true);
    RunEndIs(u, 0, sep, true, |sp| + RunEnd(s, 0, sep, true));
  }

  /** Leading separators do not change the pieces. */
  lemma PiecesLead(sp: string, s: string, sep: char -> bool)
    requires AllIn(sp, sep)
    ensures Pieces(sp + s, sep) == Pieces(s, sep)
  {
    var u := sp + s;
    var a := RunEnd(s, 0, sep, true);
    LeadShift(sp, s, sep);
    if a < |s| {
      var b := RunEnd(s, a, sep, false);
      RunEndShift(sp, s, a, sep, false);
      SliceShift(sp, s, a, b);
      PiecesStep(u, sep, |sp| + a, |sp| + b, s[a..b], s[b..]);
      PiecesStep(s, sep, a, b, s[a..b], s[b..]);
    }
  }

  /** Trailing separators do not change the pieces. */
  lemma {:induction false} PiecesTrailing(m: string, post: string, sep: char -> bool)
    requires AllIn(post, sep)
    ensures Pieces(m + post, sep) == Pieces(m, sep)
    decreases |m|
  {
    var u := m + post;
    var a := RunEnd(m, 0, sep, true);
    if a == |m| {
      assert forall k :: 0 <= k < |u| ==> sep(u[k]) by {
        forall k | 0 <= k < |u| ensures sep(u[k]) {
          if k < |m| { assert u[k] == m[k]; } else { assert u[k] == post[k - |m|]; }
        }
      }
    } else {
      var b := RunEnd(m, a, sep, false);
      assert forall k :: 0 <= k < |m| ==> u[k] == m[k];
      RunEndIs(u, 0, sep, true, a);
      if b == |m| && post != [] {
        assert u[b] == post[0];
      }
      RunEndIs(u, a, sep, false, b);
      assert u[a..b] == m[a..b];
      assert u[b..] == m[b..] + post;
      PiecesStep(u, sep, a, b, m[a..b], m[b..] + post);
      PiecesStep(m, sep, a, b, m[a..b], m[b..]);
      PiecesTrailing(m[b..], post, sep);
    }
  }

  /** A piece followed by a separator or nothing is the first piece. */
  lemma PiecesToken(w: string, x: string, sep: char -> bool)
    requires IsPiece(w, sep) && (x == [] || sep(x[0]))
    ensures Pieces(w + x, sep) == [w] + Pieces(x, sep)
  {
    var u := w + x;
    assert forall k :: 0 <= k < |w| ==> u[k] == w[k];
    RunEndIs(u, 0, sep, true, 0);
    if x != [] {
      assert u[|w|] == x[0];
    }
    RunEndIs(u, 0, sep, false, |w|);
    assert u[0..|w|] == w;
    assert u[|w|..] == x;
    PiecesStep(u, sep, 0, |w|, w, x);
  }

  /** A run of the class before another character collapses to one `rep`. */
  lemma ReplaceRunsLead(sp: string, t: string, sep: char -> bool, rep: char)
    requires AllIn(sp, sep) && (t == [] || !sep(t[0]))
    ensures ReplaceRuns(sp + t, sep, rep) == (if sp == [] then [] else [rep]) + ReplaceRuns(t, sep, rep)
  {
    var u := sp + t;
    if sp != [] {
      assert u[0] == sp[0];
      assert forall k :: 1 <= k < |sp| ==> u[k] == sp[k];
      if t != [] {
        assert u[|sp|] == t[0];
      }
      FirstKeptIs(u, sep, 1, |sp|);
      assert u[|sp|..] == t;
    } else {
      assert u == t;
    }
  }

  /** Characters outside the class pass through unchanged. */
  lemma {:induction false} ReplaceRunsToken(w: string, x: string, sep: char -> bool, rep: char)
    requires Outside(w, sep)
    ensures ReplaceRuns(w + x, sep, rep) == w + ReplaceRuns(x, sep, rep)
    decreases |w|
  {
    if w != [] {
      assert (w + x)[0] == w[0] && (w + x)[1..] == w[1..] + x;
      ReplaceRunsToken(w[1..], x, sep, rep);
      assert w == [w[0]] + w[1..];
    } else {
      assert w + x == x;
    }
  }

  /** Dropping leading separators keeps the pieces. */
  lemma PiecesDropLead(s: string, a: nat, sep: char -> bool)
    requires a <= |s| && AllIn(s[..a], sep)
    ensures Pieces(s, sep) == Pieces(s[a..], sep)
  {
    assert s == s[..a] + s[a..];
    PiecesLead(s[..a], s[a..], sep);
  }

  /** The first piece of a text that starts with one. */
  lemma PiecesTokenSplit(t: string, b: nat, sep: char -> bool)
    requires t != [] && !sep(t[0]) && b == RunEnd(t, 0, sep, false)
    ensures Pieces(t, sep) == [t[..b]] + Pieces(t[b..], sep)
  {
    assert t == t[..b] + t[b..];
    PiecesToken(t[..b], t[b..], sep);
  }

  /** The leading separator run collapses away in the pieces. */
  lemma PiecesReplaceRunsLead(s: string, a: nat, sep: char -> bool, rep: char)
    requires sep(rep) && a == RunEnd(s, 0, sep, true)
    ensures Pieces(ReplaceRuns(s, sep, rep), sep) == Pieces(ReplaceRuns(s[a..], sep, rep), sep)
  {
    assert s == s[..a] + s[a..];
    ReplaceRunsLead(s[..a], s[a..], sep, rep);
    if a > 0 {
      PiecesLead([rep], ReplaceRuns(s[a..], sep, rep), sep);
    }
  }

  /** The first piece passes through the collapsing unchanged. */
  lemma PiecesReplaceRunsToken(t: string, b: nat, sep: char -> bool, rep: char)
    requires sep(rep) && t != [] && !sep(t[0]) && b == RunEnd(t, 0, sep, false)
    ensures Pieces(ReplaceRuns(t, sep, rep), sep) == [t[..b]] + Pieces(ReplaceRuns(t[b..], sep, rep), sep)
  {
    var w, rest := t[..b], t[b..];
    assert t == w + rest;
    ReplaceRunsToken(w, rest, sep, rep);
    ReplaceRunsHead(rest, sep, rep);
    PiecesToken(w, ReplaceRuns(rest, sep, rep), sep);
  }

  /** Collapsing every run of the class to one `rep` keeps the pieces. */
  lemma {:induction false} PiecesReplaceRuns(s: string, sep: char -> bool, rep: char)
    requires sep(rep)
    ensures Pieces(ReplaceRuns(s, sep, rep), sep) == Pieces(s, sep)
    decreases |s|
  {
    var a := RunEnd(s, 0, sep, true);
    var t := s[a..];
    PiecesDropLead(s, a, sep);
    PiecesReplaceRunsLead(s, a, sep, rep);
    if t != [] {
      var b := RunEnd(t, 0, sep, false);
      PiecesTokenSplit(t, b, sep);
      PiecesReplaceRunsToken(t, b, sep, rep);
      PiecesReplaceRuns(t[b..], sep, rep);
    }
  }

  /** Pieces joined by single `rep`s: non-empty, no character of the class
      at either end, and every character of the class is a lone `rep`. */
  predicate Separated(c: string, sep: char -> bool, rep: char) {
    c != [] && !sep(c[0]) && !sep(c[|c| - 1]) && SingleRuns(c, sep, rep)
  }

  /** In such a text, the first piece is followed by nothing, or by one
      `rep` and another such text. */
  lemma SeparatedTail(c: string, b: nat, sep: char -> bool, rep: char)
    requires Separated(c, sep, rep) && b == RunEnd(c, 0, sep, false) && b < |c|
    ensures b + 1 < |c| && Separated(c[b + 1..], sep, rep)
    ensures c == c[..b] + [rep] + c[b + 1..]
  {
    assert sep(c[b]) && c[b] == rep;
    SingleRunsSlice(c, sep, rep, b + 1, |c|);
    SplitAround(c, b);
  }

  lemma SplitAround(c: string, b: nat)
    requires b < |c|
    ensures c == c[..b] + [c[b]] + c[b + 1..]
  {
  }

  /** A leading separator can be dropped from the pieces. */
  lemma PiecesAfterSep(c: string, b: nat, sep: char -> bool)
    requires b < |c| && sep(c[b])
    ensures Pieces(c[b..], sep) == Pieces(c[b + 1..], sep)
  {
    PiecesDropLead(c[b..], 1, sep);
    assert c[b..][1..] == c[b + 1..];
  }

  lemma JoinCons(w: string, ws: seq<string>, sep: string)
    requires ws != []
    ensures Join([w] + ws, sep) == w + sep + Join(ws, sep)
  {
    assert ([w] + ws)[1..] == ws;
  }

  /** Joining the pieces of such a text with `rep` gives it back. */
  lemma {:induction false} JoinPieces(c: string, sep: char -> bool, rep: char)
    requires Separated(c, sep, rep)
    ensures Join(Pieces(c, sep), [rep]) == c
    decreases |c|
  {
    var b := RunEnd(c, 0, sep, false);
    PiecesTokenSplit(c, b, sep);
    if b < |c| {
      var c2 := c[b + 1..];
      SeparatedTail(c, b, sep, rep);
      PiecesAfterSep(c, b, sep);
      JoinPieces(c2, sep, rep);
      JoinCons(c[..b], Pieces(c2, sep), [rep]);
    } else {
      assert c[..b] == c;
    }
  }

  /** Trimming the class from both ends keeps the pieces. */
  lemma PiecesTrim(c: string, sep: char -> bool)
    ensures Pieces(Trim(c, sep), sep) == Pieces(c, sep)
  {
    TrimDropped(c, sep);
    PiecesAround(c, Lead(c, sep), Lead(c, sep) + |Trim(c, sep)|, sep);
  }

  /** Separators on both sides of `c[a..b]` do not change the pieces. */
  lemma PiecesAround(c: string, a: nat, b: nat, sep: char -> bool)
    requires a <= b <= |c|
    requires forall i :: 0 <= i < a ==> sep(c[i])
    requires forall i :: b <= i < |c| ==> sep(c[i])
    ensures Pieces(c, sep) == Pieces(c[a..b], sep)
  {
    var pre, m, post := c[..a], c[a..b], c[b..];
    assert AllIn(pre, sep) && AllIn(post, sep);
    SplitThree(c, a, b);
    PiecesLead(pre, m + post, sep);
    PiecesTrailing(m, post, sep);
  }

  lemma SplitThree(c: string, a: nat, b: nat)
    requires a <= b <= |c|
    ensures c == c[..a] + (c[a..b] + c[b..])
  {
  }

  /** Collapsing the runs of the class to `rep` and trimming the class from
      both ends joins the pieces with `rep`. */
  lemma CollapseJoinsPieces(s: string, sep: char -> bool, rep: char)
    requires sep(rep)
    ensures Trim(ReplaceRuns(s, sep, rep), sep) == Join(Pieces(s, sep), [rep])
  {
    var t := Trim(ReplaceRuns(s, sep, rep), sep);
    CollapsePieces(s, sep, rep);
    if t != [] {
      CollapseSeparated(s, sep, rep);
      JoinPieces(t, sep, rep);
    }
  }

  lemma CollapsePieces(s: string, sep: char -> bool, rep: char)
    requires sep(rep)
    ensures Pieces(Trim(ReplaceRuns(s, sep, rep), sep), sep) == Pieces(s, sep)
  {
    PiecesReplaceRuns(s, sep, rep);
    PiecesTrim(ReplaceRuns(s, sep, rep), sep);
  }

  lemma CollapseSeparated(s: string, sep: char -> bool, rep: char)
    requires sep(rep) && Trim(ReplaceRuns(s, sep, rep), sep) != []
    ensures Separated(Trim(ReplaceRuns(s, sep, rep), sep), sep, rep)
  {
    var c := ReplaceRuns(s, sep, rep);
    var t := Trim(c, sep);
    ReplaceRunsSingle(s, sep, rep);
    var a := Lead(c, sep);
    SingleRunsSlice(c, sep, rep, a, a + |t|);
  }

  // ---------- clean as split and join ----------

  /** Python's `s.split()` with no argument. */
  function Words(s: string): seq<string> {
    Pieces(s, IsSpace)
  }

  /** Collapsing whitespace runs keeps the words. */
  lemma WordsReplaceRuns(s: string)
    ensures Words(ReplaceRuns(s, IsSpace, ' ')) == Words(s)
  {
    PiecesReplaceRuns(s, IsSpace, ' ');
  }

  /** Joining the words of a cleaned text with single spaces gives it back. */
  lemma JoinWordsClean(c: string)
    requires IsClean(c)
    ensures Join(Words(c), " ") == c
  {
    JoinPieces(c, IsSpace, ' ');
  }

  /** `clean` is Python's `" ".join(t.split())`, absent when there is no
      word. */
  lemma CleanJoinsWords(t: string)
    ensures Clean(Some(t)) == if Words(t) == [] then None else Some(Join(Words(t), " "))
  {
    assert Words(t) == [] <==> AllSpace(t);
    if t != [] {
      CollapseJoinsPieces(t, IsSpace, ' ');
    }
  }

  // ---------- slugify ----------

  /** The shape of every slug: only `a-z`, `0-9` and `_`, no `_` at either
      end and never two `_` in a row. */
  predicate IsSlug(s: string) {
    && (forall i :: 0 <= i < |s| ==> IsSlugChar(s[i]) || s[i] == '_')
    && (s != [] ==> s[0] != '_' && s[|s| - 1] != '_')
    && SingleRuns(s, IsUnderscore, '_')
  }

  /** The last three steps of `slugify`, on the lower-cased text without
      apostrophes. */
  function SlugTail(s: string): string {
    Trim(ReplaceRuns(ReplaceRuns(s, NotSlugChar, '_'), IsUnderscore, '_'), IsUnderscore)
  }

  /** Only slug characters and `_`, with no `__`. */
  predicate SlugBody(s: string) {
    (forall i :: 0 <= i < |s| ==> IsSlugChar(s[i]) || s[i] == '_') && SingleRuns(s, IsUnderscore, '_')
  }

  lemma SlugBodyOfRuns(s: string)
    requires SingleRuns(s, NotSlugChar, '_')
    ensures SlugBody(s)
  {
    forall i | 0 <= i < |s|
      ensures (IsSlugChar(s[i]) || s[i] == '_') && (IsUnderscore(s[i]) ==> (i + 1 < |s| ==> !IsUnderscore(s[i + 1])))
    {
      if NotSlugChar(s[i]) {
        assert s[i] == '_';
      }
    }
  }

  lemma SlugOfTrim(s: string)
    requires SlugBody(s)
    ensures IsSlug(Trim(s, IsUnderscore))
  {
    var r := Trim(s, IsUnderscore);
    var a := Lead(s, IsUnderscore);
    SingleRunsSlice(s, IsUnderscore, '_', a, a + |r|);
    forall i | 0 <= i < |r|
      ensures IsSlugChar(r[i]) || r[i] == '_'
    {
      assert r[i] == s[a + i];
    }
  }

  lemma SlugTailShape(s: string)
    ensures IsSlug(SlugTail(s))
  {
    var s3 := ReplaceRuns(s, NotSlugChar, '_');
    ReplaceRunsSingle(s, NotSlugChar, '_');
    SlugBodyOfRuns(s3);
    ReplaceRunsUnchanged(s3, IsUnderscore, '_');
    SlugOfTrim(s3);
  }

  /** `slugify` (scrape_regular_customers.py): strip, lower-case, drop
      apostrophes, turn every run of other characters into `_`, squash `_`
      runs and strip `_` from both ends; `""` for an absent text. */
  function Slugify(text: Option<string>): (r: string)
    ensures IsSlug(r)
    ensures text.None? ==> r == ""
  {
    if text.None? then ""
    else
      var s := Without(Lower(Strip(text.value)), IsQuote);
      SlugTailShape(s);
      SlugTail(s)
  }

  lemma SlugRuns(s: string)
    requires IsSlug(s)
    ensures SingleRuns(s, NotSlugChar, '_')
  {
    forall i | 0 <= i < |s| && NotSlugChar(s[i])
      ensures s[i] == '_' && (i + 1 < |s| ==> !NotSlugChar(s[i + 1]))
    {
      if i + 1 < |s| {
        assert IsUnderscore(s[i]);
        assert s[i + 1] != '_';
      }
    }
  }

  lemma StripSlug(s: string)
    requires IsSlug(s)
    ensures Strip(s) == s
  {
    TrimUnchanged(s, IsSpace);
  }

  lemma LowerSlug(s: string)
    requires IsSlug(s)
    ensures Lower(s) == s
  {
  }

  lemma SlugPrefixUnchanged(s: string)
    requires IsSlug(s)
    ensures Without(Lower(Strip(s)), IsQuote) == s
  {
    StripSlug(s);
    LowerSlug(s);
    WithoutNone(s, IsQuote);
  }

  /** A slug is its own slug. */
  lemma {:induction false} SlugUnchanged(s: string)
    requires IsSlug(s)
    ensures Slugify(Some(s)) == s
  {
    SlugPrefixUnchanged(s);
    SlugRuns(s);
    ReplaceRunsUnchanged(s, NotSlugChar, '_');
    ReplaceRunsUnchanged(s, IsUnderscore, '_');
    TrimUnchanged(s, IsUnderscore);
    assert SlugTail(s) == s;
  }

  /** `slugify(slugify(x)) == slugify(x)`. */
  lemma SlugifyIdempotent(text: Option<string>)
    ensures Slugify(Some(Slugify(text))) == Slugify(text)
  {
    SlugUnchanged(Slugify(text));
  }

  // ---------- slugify as split and join ----------

  /** `re.findall(r"[a-z0-9]+", s)`: the maximal runs of slug characters. */
  function AlnumRuns(s: string): seq<string> {
    Pieces(s, NotSlugChar)
  }

  /** `LastKept` is the only index with its two properties. */
  lemma LastKeptIs(s: string, drop: char -> bool, j: nat, b: nat)
    requires b <= j <= |s| && (b == 0 || !drop(s[b - 1]))
    requires forall k :: b <= k < j ==> drop(s[k])
    ensures LastKept(s, drop, j) == b
    decreases j
  {
    if b < j {
      LastKeptIs(s, drop, j - 1, b);
    }
  }

  /** Two classes that agree on every character of `s` trim it alike. */
  lemma TrimAgree(s: string, p: char -> bool, q: char -> bool)
    requires forall i :: 0 <= i < |s| ==> p(s[i]) == q(s[i])
    ensures Trim(s, p) == Trim(s, q)
  {
    FirstKeptIs(s, q, 0, FirstKept(s, p, 0));
    LastKeptIs(s, q, |s|, LastKept(s, p, |s|));
  }

  /** The last three steps of `slugify` join the runs of slug characters
      with `_`. */
  lemma SlugTailJoinsRuns(s: string)
    ensures SlugTail(s) == Join(AlnumRuns(s), "_")
  {
    var c := ReplaceRuns(s, NotSlugChar, '_');
    ReplaceRunsSingle(s, NotSlugChar, '_');
    SlugBodyOfRuns(c);
    ReplaceRunsUnchanged(c, IsUnderscore, '_');
    TrimAgree(c, IsUnderscore, NotSlugChar);
    CollapseJoinsPieces(s, NotSlugChar, '_');
  }

  /** The text `slugify` works on once it is stripped, lower-cased and
      rid of apostrophes. */
  function SlugSource(x: string): string {
    Without(Lower(Strip(x)), IsQuote)
  }

  /** `slugify(x)` is `"_".join(re.findall(r"[a-z0-9]+", x'))`, where `x'`
      is `x` stripped, lower-cased and without apostrophes. */
  lemma SlugifyJoinsRuns(x: string)
    ensures Slugify(Some(x)) == Join(AlnumRuns(SlugSource(x)), "_")
  {
    SlugTailJoinsRuns(SlugSource(x));
  }

  /** Two texts whose slug characters form the same runs have the same
      slug. */
  lemma SameRunsSameSlug(x: string, y: string)
    requires AlnumRuns(SlugSource(x)) == AlnumRuns(SlugSource(y))
    ensures Slugify(Some(x)) == Slugify(Some(y))
  {
    SlugifyJoinsRuns(x);
    SlugifyJoinsRuns(y);
  }

  lemma LowerTwice(s: string)
    ensures Lower(Lower(s)) == Lower(s)
  {
  }

  /** Lower-casing keeps whitespace where it is, so it commutes with
      `strip`. */
  lemma StripLower(s: string)
    ensures Strip(Lower(s)) == Lower(Strip(s))
  {
    var u := Lower(s);
    var a := FirstKept(s, IsSpace, 0);
    var b := LastKept(s, IsSpace, |s|);
    SpaceLower(s);
    FirstKeptIs(u, IsSpace, 0, a);
    LastKeptIs(u, IsSpace, |s|, b);
    if a < b {
      LowerSlice(s, a, b);
    }
  }

  lemma SpaceLower(s: string)
    ensures forall i :: 0 <= i < |s| ==> IsSpace(Lower(s)[i]) == IsSpace(s[i])
  {
  }

  lemma LowerSlice(s: string, a: nat, b: nat)
    requires a <= b <= |s|
    ensures Lower(s)[a..b] == Lower(s[a..b])
  {
  }

  /** Case does not matter to a slug. */
  lemma SlugifyLower(x: string)
    ensures Slugify(Some(Lower(x))) == Slugify(Some(x))
  {
    StripLower(x);
    LowerTwice(Strip(x));
  }

  /** `Lower` leaves a text without capitals unchanged. */
  lemma LowerUnchanged(s: string)
    requires forall i :: 0 <= i < |s| ==> !('A' <= s[i] <= 'Z')
    ensures Lower(s) == s
  {
  }

  /** Two runs of slug characters with a gap of other characters between
      them: their slug is the two runs joined by one `_`. */
  lemma SlugOfTwoRuns(x: string, w1: string, gap: string, w2: string)
    requires SlugSource(x) == w1 + gap + w2
    requires IsPiece(w1, NotSlugChar) && IsPiece(w2, NotSlugChar)
    requires gap != [] && AllIn(gap, NotSlugChar)
    ensures Slugify(Some(x)) == w1 + "_" + w2
  {
    TwoRuns(w1, gap, w2);
    SlugifyJoinsRuns(x);
    JoinCons(w1, [w2], "_");
  }

  lemma TwoRuns(w1: string, gap: string, w2: string)
    requires IsPiece(w1, NotSlugChar) && IsPiece(w2, NotSlugChar)
    requires gap != [] && AllIn(gap, NotSlugChar)
    ensures AlnumRuns(w1 + gap + w2) == [w1, w2]
  {
    assert w1 + gap + w2 == w1 + (gap + w2);
    PiecesToken(w1, gap + w2, NotSlugChar);
    PiecesLead(gap, w2, NotSlugChar);
    assert w2 + [] == w2;
    PiecesToken(w2, [], NotSlugChar);
  }

  /** An apostrophe is dropped and nothing else is. */
  lemma WithoutOneQuote(a: string, q: char, b: string)
    requires IsQuote(q)
    requires forall i :: 0 <= i < |a| ==> !IsQuote(a[i])
    requires forall i :: 0 <= i < |b| ==> !IsQuote(b[i])
    ensures Without(a + [q] + b, IsQuote) == a + b
  {
    assert Without(a + [q], IsQuote) == a by {
      WithoutAppend(a, [q], IsQuote);
      WithoutNone(a, IsQuote);
      WithoutAll([q], IsQuote);
    }
    WithoutAppend(a + [q], b, IsQuote);
    WithoutNone(b, IsQuote);
  }

  /** A text without capitals, apostrophes or surrounding whitespace is
      its own slug source. */
  lemma PlainSource(s: string)
    requires s != [] && !IsSpace(s[0]) && !IsSpace(s[|s| - 1])
    requires forall i :: 0 <= i < |s| ==> !('A' <= s[i] <= 'Z') && !IsQuote(s[i])
    ensures SlugSource(s) == s
  {
    TrimUnchanged(s, IsSpace);
    LowerUnchanged(s);
    WithoutNone(s, IsQuote);
  }

  lemma TitledLower()
    ensures Lower(Strip("Mr. O'Hare")) == "mr. o" + "'" + "hare"
  {
    var s := "Mr. O'Hare";
    TrimUnchanged(s, IsSpace);
    assert Lower(s) == "mr. o'hare" by {
      forall i | 0 <= i < |s| ensures Lower(s)[i] == "mr. o'hare"[i] {
      }
    }
  }

  lemma TitledSource()
    ensures SlugSource("Mr. O'Hare") == "mr" + ". " + "ohare"
  {
    TitledLower();
    WithoutOneQuote("mr. o", '\'', "hare");
  }

  /** Capitals, apostrophes and punctuation do not matter to a slug:
      "Mr. O'Hare" and "mr ohare" are both `mr_ohare`. */
  lemma OHareSlug()
    ensures Slugify(Some("Mr. O'Hare")) == Slugify(Some("mr ohare")) == "mr_ohare"
  {
    PlainSlug();
    TitledSlug();
  }

  lemma MrOhare()
    ensures "mr" + "_" + "ohare" == "mr_ohare" && "mr" + " " + "ohare" == "mr ohare"
    ensures IsPiece("mr", NotSlugChar) && IsPiece("ohare", NotSlugChar)
    ensures AllIn(" ", NotSlugChar) && AllIn(". ", NotSlugChar)
  {
  }

  lemma PlainSlug()
    ensures Slugify(Some("mr ohare")) == "mr_ohare"
  {
    MrOhare();
    PlainSource("mr ohare");
    SlugOfTwoRuns("mr ohare", "mr", " ", "ohare");
  }

  lemma TitledSlug()
    ensures Slugify(Some("Mr. O'Hare")) == "mr_ohare"
  {
    TitledSource();
    MrOhare();
    SlugOfTwoRuns("Mr. O'Hare", "mr", ". ", "ohare");
  }

  // ---------- split_list ----------

  /** Python's `s.split(sep)` for a one-character separator: the pieces
      between separators, empty ones included. */
  function Split(s: string, sep: char): (r: seq<string>)
    ensures |r| >= 1
  {
    if s == [] then [""]
    else
      var rest := Split(s[1..], sep);
      if s[0] == sep then [""] + rest else [[s[0]] + rest[0]] + rest[1..]
  }

  /** Python's `sep.join(parts)`. */
  function Join(parts: seq<string>, sep: string): string {
    if |parts| == 0 then ""
    else if |parts| == 1 then parts[0]
    else parts[0] + sep + Join(parts[1..], sep)
  }

  lemma {:induction false} SplitPrefix(a: string, t: string, sep: char)
    requires sep !in a
    ensures Split(a + t, sep) == [a + Split(t, sep)[0]] + Split(t, sep)[1..]
  {
    if a == [] {
      var r := Split(t, sep);
      assert a + t == t && a + r[0] == r[0];
      assert r == [r[0]] + r[1..];
    } else {
      assert (a + t)[0] == a[0] && (a + t)[1..] == a[1..] + t;
      SplitPrefix(a[1..], t, sep);
      assert [a[0]] + (a[1..] + Split(t, sep)[0]) == a + Split(t, sep)[0];
    }
  }

  /** Splitting a join of separator-free pieces gives the pieces back. */
  lemma {:induction false} SplitJoin(parts: seq<string>, sep: char)
    requires |parts| >= 1 && forall k :: 0 <= k < |parts| ==> sep !in parts[k]
    ensures Split(Join(parts, [sep]), sep) == parts
  {
    if |parts| == 1 {
      SplitPrefix(parts[0], [], sep);
      assert parts[0] + [] == parts[0];
    } else {
      var rest := Join(parts[1..], [sep]);
      SplitJoin(parts[1..], sep);
      assert Split([sep] + rest, sep) == [""] + parts[1..] by {
        assert ([sep] + rest)[1..] == rest;
      }
      assert Join(parts, [sep]) == parts[0] + ([sep] + rest);
      SplitPrefix(parts[0], [sep] + rest, sep);
      var q := [""] + parts[1..];
      assert q[0] == "" && q[1..] == parts[1..];
      assert parts[0] + "" == parts[0];
      assert parts == [parts[0]] + parts[1..];
    }
  }

  /** Joining the pieces of a split gives the text back. */
  lemma {:induction false} JoinSplit(s: string, sep: char)
    ensures Join(Split(s, sep), [sep]) == s
  {
    if s != [] {
      var rest := Split(s[1..], sep);
      JoinSplit(s[1..], sep);
      if s[0] == sep {
        assert Split(s, sep) == [""] + rest;
        assert ([""] + rest)[1..] == rest;
        assert s == [sep] + s[1..];
      } else {
        var r := Split(s, sep);
        assert r == [[s[0]] + rest[0]] + rest[1..];
        if |rest| == 1 {
          assert s == [s[0]] + s[1..];
        } else {
          assert r[1..] == rest[1..];
          assert Join(rest, [sep]) == rest[0] + [sep] + Join(rest[1..], [sep]);
          assert s == [s[0]] + s[1..];
        }
      }
    }
  }

  predicate IsListDelimiter(c: char) { c == ',' || c == '·' || c == '•' }

  function DotToComma(c: char): char {
    if c == '·' || c == '•' then ',' else c
  }

  /** `s.replace("·", ",").replace("•", ",")` */
  function ReplaceDots(s: string): (r: string)
    ensures |r| == |s| && forall i :: 0 <= i < |s| ==> r[i] == DotToComma(s[i])
  {
    seq(|s|, i requires 0 <= i < |s| => DotToComma(s[i]))
  }

  /** One slug per piece that is not blank, in order. */
  function SlugPieces(parts: seq<string>): (r: seq<string>)
    ensures |r| <= |parts|
    ensures forall k :: 0 <= k < |r| ==> IsSlug(r[k])
  {
    if parts == [] then []
    else
      var p := Strip(parts[0]);
      (if p == [] then [] else [Slugify(Some(p))]) + SlugPieces(parts[1..])
  }

  /** `split_list` (scrape_regular_customers.py): the slugs of the non-blank
      pieces of a list written with `,`, `·` or `•` between items, in order,
      repeats kept; `[]` for an absent or empty text. */
  function SplitList(s: Option<string>): (r: seq<string>)
    ensures s.None? || s.value == [] ==> r == []
    ensures forall k :: 0 <= k < |r| ==> IsSlug(r[k])
    ensures s.Some? ==> |r| <= |Split(ReplaceDots(s.value), ',')|
  {
    if s.None? || s.value == [] then [] else SlugPieces(Split(ReplaceDots(s.value), ','))
  }

  lemma StripEmpty(s: string)
    ensures Strip(s) == [] <==> AllSpace(s)
  {
    if Strip(s) == [] {
      assert LastKept(s, IsSpace, |s|) <= FirstKept(s, IsSpace, 0);
    }
  }

  /** `·` and `•` separate items exactly as `,` does. */
  lemma SplitListDelimiters(s: string)
    ensures SplitList(Some(s)) == SplitList(Some(ReplaceDots(s)))
  {
    assert ReplaceDots(ReplaceDots(s)) == ReplaceDots(s);
  }

  /** The slugs of the stripped items. */
  function SlugEach(items: seq<string>): (r: seq<string>)
    ensures |r| == |items|
  {
    if items == [] then [] else [Slugify(Some(Strip(items[0])))] + SlugEach(items[1..])
  }

  lemma {:induction false} ReplaceDotsJoin(items: seq<string>, d: char)
    requires IsListDelimiter(d) && |items| >= 1
    requires forall k, i :: 0 <= k < |items| && 0 <= i < |items[k]| ==> !IsListDelimiter(items[k][i])
    ensures ReplaceDots(Join(items, [d])) == Join(items, [','])
  {
    if |items| == 1 {
      assert ReplaceDots(items[0]) == items[0];
    } else {
      ReplaceDotsJoin(items[1..], d);
      var a, b := items[0], Join(items[1..], [d]);
      assert Join(items, [d]) == a + [d] + b;
      assert Join(items, [',']) == a + [','] + Join(items[1..], [',']);
      assert ReplaceDots(a + [d] + b) == ReplaceDots(a) + [','] + ReplaceDots(b);
      assert ReplaceDots(a) == a;
    }
  }

  /** The items that are not blank, in order. */
  function NonBlank(items: seq<string>): (r: seq<string>)
    ensures |r| <= |items|
    ensures forall k :: 0 <= k < |r| ==> !AllSpace(r[k]) && r[k] in items
    ensures forall k :: 0 <= k < |items| && !AllSpace(items[k]) ==> items[k] in r
  {
    if items == [] then []
    else (if AllSpace(items[0]) then [] else [items[0]]) + NonBlank(items[1..])
  }

  /** Blank pieces give no slug; every other piece gives its own. */
  lemma {:induction false} SlugPiecesNonBlank(items: seq<string>)
    ensures SlugPieces(items) == SlugEach(NonBlank(items))
  {
    if items != [] {
      var x, rest := items[0], items[1..];
      StripEmpty(x);
      SlugPiecesNonBlank(rest);
      var tail := NonBlank(rest);
      if AllSpace(x) {
        assert NonBlank(items) == tail;
        assert SlugPieces(items) == SlugPieces(rest);
      } else {
        var s := Slugify(Some(Strip(x)));
        assert NonBlank(items) == [x] + tail;
        assert SlugPieces(items) == [s] + SlugPieces(rest);
        var w := [x] + tail;
        assert w[0] == x && w[1..] == tail;
        assert SlugEach(w) == [s] + SlugEach(tail);
      }
    }
  }

  /** A list written as items separated by any one of `,`, `·` or `•` gives
      one slug per item that is not blank, in order: "A · B · C" and
      "A • B • C" give what "A, B, C" gives, and "A,,B" and "A, ,B" give what
      "A,B" gives. */
  lemma SplitListOfJoin(items: seq<string>, d: char)
    requires IsListDelimiter(d)
    requires forall k, i :: 0 <= k < |items| && 0 <= i < |items[k]| ==> !IsListDelimiter(items[k][i])
    ensures SplitList(Some(Join(items, [d]))) == SlugEach(NonBlank(items))
  {
    if |items| > 1 {
      assert Join(items, [d]) == items[0] + [d] + Join(items[1..], [d]);
    }
    if Join(items, [d]) == [] {
      assert |items| <= 1;
      if |items| == 1 {
        assert items[0] == [] && AllSpace(items[0]);
        assert NonBlank(items) == NonBlank(items[1..]);
      }
    } else {
      ReplaceDotsJoin(items, d);
      SplitJoin(items, ',');
      SlugPiecesNonBlank(items);
    }
  }

  // ---------- parse_int ----------

  predicate NotDigit(c: char) { !IsDigit(c) }

  /** `[\d,]` */
  predicate IsDigitOrComma(c: char) { IsDigit(c) || c == ',' }

  function DigitValue(c: char): nat {
    if IsDigit(c) then c as int - '0' as int else 0
  }

  /** The value of a numeral read in base 10. */
  function DecimalValue(ds: string): nat {
    if ds == [] then 0 else DecimalValue(ds[..|ds| - 1]) * 10 + DigitValue(ds[|ds| - 1])
  }

  /** The decimal numeral of `n`, without separators. */
  function Decimal(n: nat): (r: string)
    ensures r != [] && forall i :: 0 <= i < |r| ==> IsDigit(r[i])
  {
    var last := ('0' as int + n % 10) as char;
    if n < 10 then [last] else Decimal(n / 10) + [last]
  }

  lemma {:induction false} DecimalRoundTrip(n: nat)
    ensures DecimalValue(Decimal(n)) == n
  {
    if n >= 10 {
      DecimalRoundTrip(n / 10);
      var d := Decimal(n);
      assert d[..|d| - 1] == Decimal(n / 10);
    }
  }

  /** The value of the token `\d[\d,]*` that starts at `i`, commas removed. */
  function NumberAt(s: string, i: nat): nat
    requires i <= |s|
  {
    DecimalValue(Without(s[i..FirstKept(s, IsDigitOrComma, i)], IsComma))
  }

  /** `parse_int` (scrape_regular_customers.py): the number written by the
      first run of digits and commas that starts with a digit; absent when the
      text is absent or holds no digit. */
  function ParseInt(s: Option<string>): (r: Option<nat>)
    ensures r.None? <==> s.None? || forall j :: 0 <= j < |s.value| ==> !IsDigit(s.value[j])
  {
    if s.None? || s.value == [] then None
    else
      var i := FirstKept(s.value, NotDigit, 0);
      if i == |s.value| then None else Some(NumberAt(s.value, i))
  }

  /** A numeral with thousands separators after text without digits reads
      as its digits with the commas removed, whatever follows it that does
      not continue the numeral. */
  lemma ParseIntNumeral(pre: string, ds: string, post: string)
    requires forall j :: 0 <= j < |pre| ==> !IsDigit(pre[j])
    requires ds != [] && IsDigit(ds[0]) && forall j :: 0 <= j < |ds| ==> IsDigitOrComma(ds[j])
    requires post == [] || !IsDigitOrComma(post[0])
    ensures ParseInt(Some(pre + ds + post)) == Some(DecimalValue(Without(ds, IsComma)))
  {
    NumeralStart(pre, ds, post);
    NumeralEnd(pre, ds, post);
  }

  /** The first digit of `pre + ds + post` is the first one of `ds`. */
  lemma NumeralStart(pre: string, ds: string, post: string)
    requires forall j :: 0 <= j < |pre| ==> !IsDigit(pre[j])
    requires ds != [] && IsDigit(ds[0])
    ensures FirstKept(pre + ds + post, NotDigit, 0) == |pre| < |pre + ds + post|
  {
    var s := pre + ds + post;
    assert forall j :: 0 <= j < |pre| ==> s[j] == pre[j];
    assert s[|pre|] == ds[0];
    FirstKeptIs(s, NotDigit, 0, |pre|);
  }

  /** The run of digits and commas from there is `ds`. */
  lemma NumeralEnd(pre: string, ds: string, post: string)
    requires forall j :: 0 <= j < |ds| ==> IsDigitOrComma(ds[j])
    requires post == [] || !IsDigitOrComma(post[0])
    ensures FirstKept(pre + ds + post, IsDigitOrComma, |pre|) == |pre| + |ds|
    ensures (pre + ds + post)[|pre|..|pre| + |ds|] == ds
  {
    var s := pre + ds + post;
    assert forall j :: |pre| <= j < |pre| + |ds| ==> s[j] == ds[j - |pre|];
    if post != [] {
      assert s[|pre| + |ds|] == post[0];
    }
    FirstKeptIs(s, IsDigitOrComma, |pre|, |pre| + |ds|);
  }

  /** A decimal numeral after text without digits is read back exactly. */
  lemma ParseIntDecimal(pre: string, n: nat, post: string)
    requires forall j :: 0 <= j < |pre| ==> !IsDigit(pre[j])
    requires post == [] || !IsDigitOrComma(post[0])
    ensures ParseInt(Some(pre + Decimal(n) + post)) == Some(n)
  {
    var d := Decimal(n);
    ParseIntNumeral(pre, d, post);
    WithoutNone(d, IsComma);
    DecimalRoundTrip(n);
  }

  lemma CommaFree()
    ensures Without("1,250", IsComma) == "1250"
  {
    assert "1,250"[1..] == ",250";
    assert ",250"[1..] == "250";
    WithoutNone("250", IsComma);
  }

  lemma Value1250()
    ensures DecimalValue("1250") == 1250
  {
    assert "1250"[..3] == "125";
    assert "125"[..2] == "12";
    assert "12"[..1] == "1";
    assert "1"[..0] == "";
  }

  lemma ThousandsStart()
    ensures FirstKept("Weight: 1,250 kg", NotDigit, 0) == 8
  {
    var s := "Weight: 1,250 kg";
    assert forall k :: 0 <= k < 8 ==> NotDigit(s[k]);
    FirstKeptIs(s, NotDigit, 0, 8);
  }

  lemma ThousandsEnd()
    ensures FirstKept("Weight: 1,250 kg", IsDigitOrComma, 8) == 13
  {
    FirstKeptIs("Weight: 1,250 kg", IsDigitOrComma, 8, 13);
  }

  /** The thousands separator is skipped: "Weight: 1,250 kg" reads 1250. */
  lemma ParseIntThousands()
    ensures ParseInt(Some("Weight: 1,250 kg")) == Some(1250)
  {
    var s := "Weight: 1,250 kg";
    ThousandsStart();
    ThousandsEnd();
    assert s[8..13] == "1,250";
    CommaFree();
    Value1250();
  }
}
