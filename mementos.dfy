/**
  The memento table of a regular customer's page (scrape_regular_customers.py):
  the first table after the "Memento"/"Mementos" heading whose text looks like
  a reward table, and one memento per data row of it.

  The regular expressions of the source are modelled by explicit scanners over
  ASCII text: a case-insensitive match is a match of the lower-cased text, `\b`
  is a boundary between a word character and anything else, and `.` is any
  character but a line break.
*/
module Mementos {
  import opened Wrappers
  import opened Text
  import opened Page

  /** One reward of the customer. */
  datatype Memento = Memento(
    id: string,
    name: string,
    stars: Option<nat>,
    description: Option<string>,
    requirement: Option<string>,
    tags: seq<string>,
    source: string,
    shareReward: Option<string>)

  const GiftTag := "customer_gift"
  const MaxNameLength := 80
  const MaxDescriptionLength := 240

  /** How many nodes after the heading are searched for the table. */
  const TableSearchLimit := 120

  // ---------- matching ----------

  /** The lower-case word `w` occurs at `i`, ignoring case. */
  predicate MatchesAt(s: string, i: nat, w: string) {
    i + |w| <= |s| && Lower(s[i..i + |w|]) == w
  }

  /** `\bw\b` matches at `i`, ignoring case. */
  predicate WordAt(s: string, i: nat, w: string) {
    && MatchesAt(s, i, w)
    && (i == 0 || !IsWordChar(s[i - 1]))
    && (i + |w| == |s| || !IsWordChar(s[i + |w|]))
  }

  /** `re.search(r"\bServe\b|\bSell\b", s, re.I)` finds something. */
  predicate HasServeOrSell(s: string) {
    exists i :: 0 <= i <= |s| && (WordAt(s, i, "serve") || WordAt(s, i, "sell"))
  }

  /** `\+\d` matches at `i`. */
  predicate PlusDigitAt(s: string, i: nat) {
    i + 1 < |s| && s[i] == '+' && IsDigit(s[i + 1])
  }

  /** `re.search(r"\+\d", s)` finds something. */
  predicate HasPlusDigit(s: string) {
    exists i :: 0 <= i < |s| && PlusDigitAt(s, i)
  }

  /** The first `i >= from` where `\bw\b` matches. */
  function FirstWord(s: string, w: string, from: nat): (r: Option<nat>)
    requires from <= |s|
    ensures r.Some? ==> from <= r.value <= |s| && WordAt(s, r.value, w)
    ensures forall i :: from <= i <= |s| && (r.None? || i < r.value) ==> !WordAt(s, i, w)
    decreases |s| - from
  {
    if WordAt(s, from, w) then Some(from)
    else if from == |s| then None
    else FirstWord(s, w, from + 1)
  }

  // ---------- stars ----------

  /** The first `i >= from` where `\+\d` matches. */
  function FirstPlusDigit(s: string, from: nat): (r: Option<nat>)
    requires from <= |s|
    ensures r.Some? ==> from <= r.value && PlusDigitAt(s, r.value)
    ensures forall i :: from <= i < |s| && (r.None? || i < r.value) ==> !PlusDigitAt(s, i)
    decreases |s| - from
  {
    if from == |s| then None
    else if PlusDigitAt(s, from) then Some(from)
    else FirstPlusDigit(s, from + 1)
  }

  /** The star bonus: the value of the first `+\d[\d,]*` token, commas
      removed; absent when there is none. */
  function Stars(s: string): (r: Option<nat>)
    ensures r.None? <==> !HasPlusDigit(s)
  {
    var p := FirstPlusDigit(s, 0);
    if p.None? then None else Some(NumberAt(s, p.value + 1))
  }

  /** A bonus written `+` and a run of digits and commas, after text that
      has no `+` digit token, reads as those digits with the commas removed,
      whatever follows it that does not continue the number. */
  lemma StarsNumeral(pre: string, ds: string, post: string)
    requires !HasPlusDigit(pre)
    requires ds != [] && IsDigit(ds[0]) && forall j :: 0 <= j < |ds| ==> IsDigitOrComma(ds[j])
    requires post == [] || !IsDigitOrComma(post[0])
    ensures Stars(pre + "+" + ds + post) == Some(DecimalValue(Without(ds, IsComma)))
  {
    PlusFirst(pre, ds, post);
    NumeralEnd(pre + "+", ds, post);
  }

  /** The first `+` digit token of `pre + "+" + ds + post` is the `+`
      before `ds`. */
  lemma PlusFirst(pre: string, ds: string, post: string)
    requires !HasPlusDigit(pre)
    requires ds != [] && IsDigit(ds[0])
    ensures FirstPlusDigit(pre + "+" + ds + post, 0) == Some(|pre|)
  {
    var s := pre + "+" + ds + post;
    var p := |pre|;
    assert PlusDigitAt(s, p) by { assert s[p] == '+' && s[p + 1] == ds[0]; }
    forall i | 0 <= i < p
      ensures !PlusDigitAt(s, i)
    {
      assert s[i] == pre[i];
      if i + 1 < p {
        assert s[i + 1] == pre[i + 1];
        assert !PlusDigitAt(pre, i);
      } else {
        assert s[i + 1] == '+';
      }
    }
  }

  /** A bonus written `+n` after text that has none is read back exactly,
      whatever follows it that does not continue the number. */
  lemma StarsDecimal(pre: string, n: nat, post: string)
    requires !HasPlusDigit(pre)
    requires post == [] || !IsDigitOrComma(post[0])
    ensures Stars(pre + "+" + Decimal(n) + post) == Some(n)
  {
    var d := Decimal(n);
    StarsNumeral(pre, d, post);
    WithoutNone(d, IsComma);
    DecimalRoundTrip(n);
  }

  /** The thousands separator of a bonus is skipped: "Serve +1,200 stars"
      has the bonus 1200. */
  lemma StarsThousands()
    ensures Stars("Serve +1,200 stars") == Some(1200)
  {
    ServeNoPlus();
    StarsNumeral("Serve ", "1,200", " stars");
    Comma1200();
    Value1200();
  }

  lemma ServeNoPlus()
    ensures !HasPlusDigit("Serve ")
    ensures "Serve " + "+" + "1,200" + " stars" == "Serve +1,200 stars"
  {
    var pre := "Serve ";
    assert forall i :: 0 <= i < |pre| ==> pre[i] != '+';
  }

  lemma Comma1200()
    ensures Without("1,200", IsComma) == "1200"
  {
    assert "1,200"[1..] == ",200";
    assert ",200"[1..] == "200";
    WithoutNone("200", IsComma);
  }

  lemma Value1200()
    ensures DecimalValue("1200") == 1200
  {
    assert "1200"[..3] == "120";
    assert "120"[..2] == "12";
    assert "12"[..1] == "1";
    assert "1"[..0] == "";
  }

  // ---------- name ----------

  /** The first bold text of the row whose cleaned text is at most 80
      characters long. */
  function BoldName(bolds: seq<Fragments>): (r: Option<string>)
    ensures r.Some? ==> IsClean(r.value) && |r.value| <= MaxNameLength
    ensures r.Some? ==> exists k :: 0 <= k < |bolds| && CleanText(Some(bolds[k])) == r
  {
    if bolds == [] then None
    else
      var t := CleanText(Some(bolds[0]));
      if t.Some? && |t.value| <= MaxNameLength then t
      else
        var rest := BoldName(bolds[1..]);
        assert rest.Some? ==> exists k :: 0 <= k < |bolds| && CleanText(Some(bolds[k])) == rest by {
          if rest.Some? {
            var k :| 0 <= k < |bolds[1..]| && CleanText(Some(bolds[1..][k])) == rest;
            assert bolds[1..][k] == bolds[k + 1];
          }
        }
        rest
  }

  /** A short bold text is taken only when no earlier one qualifies. */
  lemma {:induction false} BoldNameFirst(bolds: seq<Fragments>, k: nat)
    requires k < |bolds|
    requires CleanText(Some(bolds[k])).Some? && |CleanText(Some(bolds[k])).value| <= MaxNameLength
    requires forall j :: 0 <= j < k ==> !(CleanText(Some(bolds[j])).Some? && |CleanText(Some(bolds[j])).value| <= MaxNameLength)
    ensures BoldName(bolds) == CleanText(Some(bolds[k]))
    decreases k
  {
    if k > 0 {
      assert bolds[1..][k - 1] == bolds[k];
      forall j | 0 <= j < k - 1
        ensures !(CleanText(Some(bolds[1..][j])).Some? && |CleanText(Some(bolds[1..][j])).value| <= MaxNameLength)
      {
        assert bolds[1..][j] == bolds[j + 1];
      }
      BoldNameFirst(bolds[1..], k - 1);
    }
  }

  /** The text before the first word "Serve" (all of it when there is none). */
  function BeforeServe(s: string): (r: string)
    ensures s == r || (|r| < |s| && WordAt(s, |r|, "serve"))
    ensures forall i :: 0 <= i < |r| ==> !WordAt(s, i, "serve")
  {
    var i := FirstWord(s, "serve", 0);
    if i.None? then s else s[..i.value]
  }

  /** The name of a memento: the first short bold text, else the cleaned text
      before "Serve" when it is short; absent otherwise. */
  function PickName(bolds: seq<Fragments>, text: string): (r: Option<string>)
    ensures r.Some? ==> IsClean(r.value) && 0 < |r.value| <= MaxNameLength
    ensures BoldName(bolds).Some? ==> r == BoldName(bolds)
    ensures BoldName(bolds).None? ==>
      (r.Some? <==> Clean(Some(BeforeServe(text))).Some? && |Clean(Some(BeforeServe(text))).value| <= MaxNameLength)
    ensures BoldName(bolds).None? && r.Some? ==> r == Clean(Some(BeforeServe(text)))
  {
    var b := BoldName(bolds);
    if b.Some? then b
    else
      var f := Clean(Some(BeforeServe(text)));
      if f.Some? && |f.value| <= MaxNameLength then f else None
  }

  // ---------- requirement ----------

  /** No line break in `s[a..b]`: what `.*?` may pass over. */
  predicate InLine(s: string, a: nat, b: nat)
    requires a <= b <= |s|
  {
    forall t :: a <= t < b ==> s[t] != '\n'
  }

  /** `.*?w` from `from`: the first `k >= from` where `w` occurs, ignoring
      case, that is reached without passing a line break. */
  function FindInLine(s: string, w: string, from: nat): (r: Option<nat>)
    requires from <= |s|
    ensures r.Some? ==> from <= r.value && MatchesAt(s, r.value, w) && InLine(s, from, r.value)
    ensures forall k :: from <= k <= |s| && (r.None? || k < r.value) && InLine(s, from, k) ==> !MatchesAt(s, k, w)
    decreases |s| - from
  {
    if MatchesAt(s, from, w) then Some(from)
    else if from == |s| || s[from] == '\n' then None
    else
      var r := FindInLine(s, w, from + 1);
      assert forall k :: from + 1 <= k <= |s| && InLine(s, from, k) ==> InLine(s, from + 1, k);
      r
  }

  /** `Serve .*?times` matches at `i`. */
  predicate ServeTimesAt(s: string, i: nat) {
    MatchesAt(s, i, "serve ") && FindInLine(s, "times", i + 6).Some?
  }

  /** The leftmost start at or after `from` of `Serve .*?times`. */
  function FirstServeTimes(s: string, from: nat): (r: Option<nat>)
    requires from <= |s|
    ensures r.Some? ==> from <= r.value && ServeTimesAt(s, r.value)
    ensures forall i :: from <= i <= |s| && (r.None? || i < r.value) ==> !ServeTimesAt(s, i)
    decreases |s| - from
  {
    if ServeTimesAt(s, from) then Some(from)
    else if from == |s| then None
    else FirstServeTimes(s, from + 1)
  }

  /** Where `Serve .*?times\.?` ends when it starts at `i`: right after
      the first "times" on the line, or after the dot that follows it. */
  function TimesEnd(s: string, i: nat): (e: nat)
    requires ServeTimesAt(s, i)
    ensures i + 11 <= e <= |s|
    ensures var k := FindInLine(s, "times", i + 6).value;
      && MatchesAt(s, k, "times")
      && (e == k + 5 || e == k + 6)
      && (e == k + 6 <==> k + 5 < |s| && s[k + 5] == '.')
  {
    var k := FindInLine(s, "times", i + 6).value;
    if k + 5 < |s| && s[k + 5] == '.' then k + 6 else k + 5
  }

  /** Where the whole requirement pattern ends when it starts at `i`: after
      the optional `.*?Sell .*?\.` when its first "Sell " can be followed by a
      dot on the same line (a later "Sell " could not be either). */
  function RequirementEnd(s: string, i: nat): (e: nat)
    requires ServeTimesAt(s, i)
    ensures TimesEnd(s, i) <= e <= |s|
  {
    var e := TimesEnd(s, i);
    var m := FindInLine(s, "sell ", e);
    if m.None? then e
    else
      var q := FindInLine(s, ".", m.value + 5);
      if q.None? then e else q.value + 1
  }

  /** The span of `(Serve .*?times\.?(?:.*?Sell .*?\.)?)`, ignoring case. */
  function RequirementSpan(s: string): (r: Option<(nat, nat)>)
    ensures r.Some? ==> ServeTimesAt(s, r.value.0) && r.value.1 == RequirementEnd(s, r.value.0)
    ensures r.Some? ==> forall j :: 0 <= j < r.value.0 ==> !ServeTimesAt(s, j)
    ensures r.None? <==> forall i :: 0 <= i <= |s| ==> !ServeTimesAt(s, i)
  {
    var i := FirstServeTimes(s, 0);
    if i.None? then None else Some((i.value, RequirementEnd(s, i.value)))
  }

  /** The span of the fallback pattern `(Serve .*?times\.?)`. */
  function ShortRequirementSpan(s: string): (r: Option<(nat, nat)>)
    ensures r.Some? ==> ServeTimesAt(s, r.value.0) && r.value.1 == TimesEnd(s, r.value.0)
  {
    var i := FirstServeTimes(s, 0);
    if i.None? then None else Some((i.value, TimesEnd(s, i.value)))
  }

  /** The requirement of a memento: the cleaned text of the requirement
      pattern. The source tries the fallback pattern `(Serve .*?times\.?)`
      when the first one fails; `FallbackUnused` shows it never matches then,
      so that branch is not part of the model. */
  function Requirement(s: string): (r: Option<string>)
    ensures r.Some? ==> IsClean(r.value)
    ensures r.Some? <==> RequirementSpan(s).Some?
    ensures r.Some? ==> var span := RequirementSpan(s).value;
      span.0 <= span.1 <= |s| && r == Clean(Some(s[span.0..span.1]))
  {
    var span := RequirementSpan(s);
    if span.Some? then
      var m := s[span.value.0..span.value.1];
      assert m[0] == s[span.value.0] && Lower(s[span.value.0..span.value.0 + 6])[0] == 's';
      Clean(Some(m))
    else None
  }

  /** The fallback pattern matches exactly where the first one does, at the
      same start, and its match is a prefix of the first one's. */
  lemma FallbackUnused(s: string)
    ensures ShortRequirementSpan(s).Some? <==> RequirementSpan(s).Some?
    ensures ShortRequirementSpan(s).Some? ==>
      ShortRequirementSpan(s).value.0 == RequirementSpan(s).value.0 &&
      ShortRequirementSpan(s).value.1 <= RequirementSpan(s).value.1
  {
  }

  /** A text containing "times" nowhere, in any letter case and not even
      inside another word, has no requirement ("Serve 50 dishes." alone gives
      none; "Serve guests sometimes" does give one). */
  lemma NoTimesNoRequirement(s: string)
    requires forall k :: 0 <= k <= |s| ==> !MatchesAt(s, k, "times")
    ensures Requirement(s) == None
  {
    forall i | 0 <= i <= |s|
      ensures !ServeTimesAt(s, i)
    {
      if MatchesAt(s, i, "serve ") {
        var f := FindInLine(s, "times", i + 6);
        assert f.Some? ==> MatchesAt(s, f.value, "times");
      }
    }
  }

  /** The pattern has no word boundary around "times": the letters inside
      "sometimes" complete a requirement. */
  lemma SometimesHasRequirement()
    ensures Requirement("Serve guests sometimes").Some?
  {
    var s := "Serve guests sometimes";
    SometimesLetters(s);
    var f := FindInLine(s, "times", 6);
    assert f.Some? by {
      assert InLine(s, 6, 17);
    }
    assert ServeTimesAt(s, 0);
  }

  lemma SometimesLetters(s: string)
    requires s == "Serve guests sometimes"
    ensures MatchesAt(s, 0, "serve ") && MatchesAt(s, 17, "times")
    ensures forall t :: 0 <= t < |s| ==> s[t] != '\n'
  {
    assert s[0..6] == "Serve " && s[17..22] == "times";
  }

  // ---------- description ----------

  /** `s.replace(pat, rep)`: every occurrence of `pat`, left to right and
      without overlap, replaced by `rep`. */
  function ReplaceAll(s: string, pat: string, rep: string): (r: string)
    requires pat != []
    decreases |s|
  {
    if |s| < |pat| then s
    else if s[..|pat|] == pat then rep + ReplaceAll(s[|pat|..], pat, rep)
    else [s[0]] + ReplaceAll(s[1..], pat, rep)
  }

  /** A text in which `pat` does not occur is left as it is. */
  lemma {:induction false} ReplaceAllAbsent(s: string, pat: string, rep: string)
    requires pat != []
    requires forall i :: 0 <= i <= |s| ==> !OccursAt(s, pat, i)
    ensures ReplaceAll(s, pat, rep) == s
    decreases |s|
  {
    if |s| >= |pat| {
      assert !OccursAt(s, pat, 0);
      forall i | 0 <= i <= |s[1..]|
        ensures !OccursAt(s[1..], pat, i)
      {
        assert !OccursAt(s, pat, i + 1);
        if i + |pat| <= |s[1..]| {
          assert s[1..][i..i + |pat|] == s[i + 1..i + 1 + |pat|];
        }
      }
      ReplaceAllAbsent(s[1..], pat, rep);
    }
  }

  /** The first character after a replacement by a space is a space or the
      first character before it. */
  lemma ReplaceAllHead(s: string, pat: string)
    requires pat != [] && s != []
    ensures ReplaceAll(s, pat, " ") != []
    ensures ReplaceAll(s, pat, " ")[0] == ' ' || ReplaceAll(s, pat, " ")[0] == s[0]
  {
  }

  /** Replacing by a space never creates a `+\d` token. */
  lemma {:induction false} ReplaceAllKeepsNoPlusDigit(s: string, pat: string)
    requires pat != [] && !HasPlusDigit(s)
    ensures !HasPlusDigit(ReplaceAll(s, pat, " "))
    decreases |s|
  {
    var r := ReplaceAll(s, pat, " ");
    if |s| >= |pat| {
      if s[..|pat|] == pat {
        var rest := ReplaceAll(s[|pat|..], pat, " ");
        NoPlusDigitSuffix(s, |pat|);
        ReplaceAllKeepsNoPlusDigit(s[|pat|..], pat);
        PrependSpace(rest);
      } else {
        var rest := ReplaceAll(s[1..], pat, " ");
        NoPlusDigitSuffix(s, 1);
        ReplaceAllKeepsNoPlusDigit(s[1..], pat);
        if |s| > 1 {
          ReplaceAllHead(s[1..], pat);
          assert !PlusDigitAt(s, 0);
        }
        PrependChar(s[0], rest);
      }
    }
  }

  /** A suffix of a text without `+\d` has none either. */
  lemma NoPlusDigitSuffix(s: string, n: nat)
    requires n <= |s| && !HasPlusDigit(s)
    ensures !HasPlusDigit(s[n..])
  {
    forall i | 0 <= i < |s[n..]|
      ensures !PlusDigitAt(s[n..], i)
    {
      assert !PlusDigitAt(s, i + n);
    }
  }

  lemma PrependSpace(rest: string)
    requires !HasPlusDigit(rest)
    ensures !HasPlusDigit(" " + rest)
  {
    var t := " " + rest;
    forall i | 0 <= i < |t|
      ensures !PlusDigitAt(t, i)
    {
      if i > 0 {
        assert !PlusDigitAt(rest, i - 1);
      }
    }
  }

  /** Putting `c` in front keeps a text free of `+\d` when `c` is not a `+`
      followed by a digit. */
  lemma PrependChar(c: char, rest: string)
    requires !HasPlusDigit(rest)
    requires c == '+' && rest != [] ==> !IsDigit(rest[0])
    ensures !HasPlusDigit([c] + rest)
  {
    var t := [c] + rest;
    forall i | 0 <= i < |t|
      ensures !PlusDigitAt(t, i)
    {
      if i > 0 {
        assert !PlusDigitAt(rest, i - 1);
      }
    }
  }

  /** `re.sub(r"\+\d[\d,]*", " ", s)`: every `+N` token replaced by a space. */
  function DropPlusNumbers(s: string): (r: string)
    decreases |s|
  {
    if |s| < 2 then s
    else if s[0] == '+' && IsDigit(s[1]) then " " + DropPlusNumbers(s[FirstKept(s, IsDigitOrComma, 1)..])
    else [s[0]] + DropPlusNumbers(s[1..])
  }

  lemma DropPlusNumbersHead(s: string)
    requires s != []
    ensures DropPlusNumbers(s) != []
    ensures DropPlusNumbers(s)[0] == ' ' || DropPlusNumbers(s)[0] == s[0]
  {
  }

  /** No `+N` token is left. */
  lemma {:induction false} DropPlusNumbersGone(s: string)
    ensures !HasPlusDigit(DropPlusNumbers(s))
    decreases |s|
  {
    if |s| >= 2 {
      if s[0] == '+' && IsDigit(s[1]) {
        var a := FirstKept(s, IsDigitOrComma, 1);
        DropPlusNumbersGone(s[a..]);
        PrependSpace(DropPlusNumbers(s[a..]));
      } else {
        DropPlusNumbersGone(s[1..]);
        DropPlusNumbersHead(s[1..]);
        PrependChar(s[0], DropPlusNumbers(s[1..]));
      }
    }
  }

  /** The description before it is cleaned: the row text without the
      requirement, then without the `+N` tokens, then without the name. */
  function DescriptionDraft(text: string, name: string, req: Option<string>): string {
    var d1 := if req.Some? && req.value != [] then ReplaceAll(text, req.value, " ") else text;
    var d2 := DropPlusNumbers(d1);
    if name != [] then ReplaceAll(d2, name, " ") else d2
  }

  /** The draft holds no `+N` token. */
  lemma DraftNoPlusDigit(text: string, name: string, req: Option<string>)
    ensures !HasPlusDigit(DescriptionDraft(text, name, req))
  {
    var d1 := if req.Some? && req.value != [] then ReplaceAll(text, req.value, " ") else text;
    DropPlusNumbersGone(d1);
    if name != [] {
      ReplaceAllKeepsNoPlusDigit(DropPlusNumbers(d1), name);
    }
  }

  /** The description: the cleaned draft cut to 240 characters. */
  function Description(text: string, name: string, req: Option<string>): (r: Option<string>)
    ensures r.Some? ==> 0 < |r.value| <= MaxDescriptionLength
    ensures r.None? <==> AllSpace(DescriptionDraft(text, name, req))
    ensures r.Some? ==> var d := Clean(Some(DescriptionDraft(text, name, req)));
      d.Some? && r.value <= d.value && (r.value == d.value || |r.value| == MaxDescriptionLength)
  {
    var d := Clean(Some(DescriptionDraft(text, name, req)));
    if d.Some? && |d.value| > MaxDescriptionLength then Some(d.value[..MaxDescriptionLength]) else d
  }

  // ---------- rows ----------

  /** The memento a table row describes, if any. */
  function RowMemento(row: Row): (r: Option<Memento>)
    ensures r.Some? <==>
              && !HasHeaderCell(row)
              && CleanText(Some(RowStrings(row))).Some?
              && HasServeOrSell(CleanText(Some(RowStrings(row))).value)
              && PickName(RowBolds(row), CleanText(Some(RowStrings(row))).value).Some?
    ensures r.Some? ==> var text := CleanText(Some(RowStrings(row))).value;
      && r.value.name == PickName(RowBolds(row), text).value
      && r.value.requirement == Requirement(text)
      && r.value.description == Description(text, r.value.name, r.value.requirement)
    ensures r.Some? ==> IsClean(r.value.name) && 0 < |r.value.name| <= MaxNameLength
    ensures r.Some? ==> r.value.id == Slugify(Some(r.value.name)) && IsSlug(r.value.id)
    ensures r.Some? ==> r.value.stars == Stars(CleanText(Some(RowStrings(row))).value)
    ensures r.Some? && r.value.description.Some? ==> 0 < |r.value.description.value| <= MaxDescriptionLength
    ensures r.Some? ==> r.value.tags == [GiftTag] && r.value.source == GiftTag && r.value.shareReward.None?
  {
    if HasHeaderCell(row) then None
    else
      var rowText := CleanText(Some(RowStrings(row)));
      if rowText.None? || !HasServeOrSell(rowText.value) then None
      else
        var text := rowText.value;
        var name := PickName(RowBolds(row), text);
        if name.None? then None
        else
          var req := Requirement(text);
          Some(Memento(Slugify(name), name.value, Stars(text), Description(text, name.value, req), req,
                       [GiftTag], GiftTag, None))
  }

  /** The results of the rows, one per row. */
  function RowResults(rows: seq<Row>): (r: seq<Option<Memento>>)
    ensures |r| == |rows|
  {
    seq(|rows|, i requires 0 <= i < |rows| => RowMemento(rows[i]))
  }

  /** The values of the present entries, in order. */
  function Somes<T>(opts: seq<Option<T>>): seq<T> {
    if opts == [] then []
    else Somes(opts[..|opts| - 1]) + (if opts[|opts| - 1].Some? then [opts[|opts| - 1].value] else [])
  }

  lemma SomesStep<T>(opts: seq<Option<T>>, i: nat)
    requires i < |opts|
    ensures Somes(opts[..i + 1]) == Somes(opts[..i]) + (if opts[i].Some? then [opts[i].value] else [])
  {
    assert opts[..i + 1][..i] == opts[..i];
  }

  /** `Somes` keeps exactly the present entries, in their order: the `k`-th
      value comes from position `idx[k]`, the positions increase, and every
      present entry is among them. */
  lemma {:induction false} SomesOrder<T>(opts: seq<Option<T>>) returns (idx: seq<nat>)
    ensures |idx| == |Somes(opts)|
    ensures forall k :: 0 <= k < |idx| ==> idx[k] < |opts| && opts[idx[k]] == Some(Somes(opts)[k])
    ensures forall a, b :: 0 <= a < b < |idx| ==> idx[a] < idx[b]
    ensures forall i :: 0 <= i < |opts| && opts[i].Some? ==> i in idx
  {
    if opts == [] {
      idx := [];
    } else {
      var n := |opts| - 1;
      var init := opts[..n];
      var pre := SomesOrder(init);
      assert forall i :: 0 <= i < n ==> init[i] == opts[i];
      if opts[n].Some? {
        idx := pre + [n];
      } else {
        idx := pre;
      }
    }
  }

  // ---------- the table ----------

  /** A table whose cleaned text has "Serve" or "Sell" as a word and a `+`
      followed by a digit. */
  predicate IsMementoTable(t: Table) {
    var txt := CleanText(Some(TableStrings(t))).GetOr("");
    HasServeOrSell(txt) && HasPlusDigit(txt)
  }

  /** The "Memento" heading, else the "Mementos" one. */
  function MementoHeading(nodes: seq<Node>): (r: Option<nat>)
    ensures r.Some? ==> r.value < |nodes|
    ensures r.Some? ==> IsHeadingNamed(nodes[r.value], "Memento") || IsHeadingNamed(nodes[r.value], "Mementos")
    ensures r.None? <==> forall i :: 0 <= i < |nodes| ==> !IsHeadingNamed(nodes[i], "Memento") && !IsHeadingNamed(nodes[i], "Mementos")
  {
    var h := FindHeading(nodes, "Memento", 0);
    if h.Some? then h else FindHeading(nodes, "Mementos", 0)
  }

  /** The "Memento" heading comes first when both exist. */
  lemma MementoHeadingPreferred(nodes: seq<Node>, i: nat)
    requires i < |nodes| && IsHeadingNamed(nodes[i], "Memento")
    ensures MementoHeading(nodes).Some? && MementoHeading(nodes).value <= i
    ensures IsHeadingNamed(nodes[MementoHeading(nodes).value], "Memento")
  {
  }

  /** Which of the tables at the given positions have the signature. */
  function Signatures(nodes: seq<Node>, ts: seq<nat>): (r: seq<bool>)
    requires forall i :: 0 <= i < |ts| ==> ts[i] < |nodes| && nodes[ts[i]].TableNode?
    ensures |r| == |ts|
  {
    seq(|ts|, i requires 0 <= i < |ts| => IsMementoTable(nodes[ts[i]].table))
  }

  /** `_find_memento_table`: the first content table within 120 nodes after
      the heading that has the signature. */
  function MementoTable(nodes: seq<Node>): (r: Option<nat>)
    ensures r.Some? ==> MementoHeading(nodes).Some? && r.value < |nodes|
    ensures r.Some? ==> MementoHeading(nodes).value < r.value <= MementoHeading(nodes).value + TableSearchLimit
    ensures r.Some? ==> IsContentTable(nodes[r.value]) && IsMementoTable(nodes[r.value].table)
    ensures r.Some? ==> forall j :: MementoHeading(nodes).value < j < r.value && IsContentTable(nodes[j]) ==> !IsMementoTable(nodes[j].table)
    ensures r.None? && MementoHeading(nodes).Some? ==>
      forall j :: MementoHeading(nodes).value < j <= MementoHeading(nodes).value + TableSearchLimit && j < |nodes| && IsContentTable(nodes[j]) ==> !IsMementoTable(nodes[j].table)
  {
    var h := MementoHeading(nodes);
    if h.None? then None
    else
      var ts := TablesAfter(nodes, h.value, TableSearchLimit);
      var k := FirstTrue(Signatures(nodes, ts), 0);
      SignatureFirst(nodes, h.value, ts, k);
      if k.None? then None else Some(ts[k.value])
  }

  /** No table the walk passes before the first one with the signature has
      it. */
  lemma SignatureFirst(nodes: seq<Node>, h: nat, ts: seq<nat>, k: Option<nat>)
    requires h < |nodes| && ts == TablesAfter(nodes, h, TableSearchLimit)
    requires k == FirstTrue(Signatures(nodes, ts), 0)
    ensures k.Some? ==> IsMementoTable(nodes[ts[k.value]].table)
    ensures forall j :: (h < j <= h + TableSearchLimit && j < |nodes| && IsContentTable(nodes[j]) && (k.None? || j < ts[k.value])) ==>
                         !IsMementoTable(nodes[j].table)
  {
    var sig := Signatures(nodes, ts);
    if k.Some? {
      assert sig[k.value] == IsMementoTable(nodes[ts[k.value]].table);
    }
    forall j | h < j <= h + TableSearchLimit && j < |nodes| && IsContentTable(nodes[j]) && (k.None? || j < ts[k.value])
      ensures !IsMementoTable(nodes[j].table)
    {
      var p :| 0 <= p < |ts| && ts[p] == j;
      assert sig[p] == IsMementoTable(nodes[j].table);
      assert k.Some? ==> p < k.value;
    }
  }

  /** All the mementos of a page, in row order. */
  function Mementos(nodes: seq<Node>): (r: seq<Memento>)
    ensures MementoTable(nodes).None? ==> r == []
    ensures MementoHeading(nodes).None? ==> r == []
  {
    var t := MementoTable(nodes);
    if t.None? then [] else Somes(RowResults(nodes[t.value].table.rows))
  }

  /** Every memento comes from a row of the memento table, in row order, and
      every row that describes a memento gives one. */
  lemma MementosFromRows(nodes: seq<Node>) returns (idx: seq<nat>)
    requires MementoTable(nodes).Some?
    ensures var rows := nodes[MementoTable(nodes).value].table.rows;
      && |idx| == |Mementos(nodes)|
      && (forall k :: 0 <= k < |idx| ==> idx[k] < |rows| && RowMemento(rows[idx[k]]) == Some(Mementos(nodes)[k]))
      && (forall a, b :: 0 <= a < b < |idx| ==> idx[a] < idx[b])
      && (forall i :: 0 <= i < |rows| && RowMemento(rows[i]).Some? ==> i in idx)
  {
    var rows := nodes[MementoTable(nodes).value].table.rows;
    var results := RowResults(rows);
    idx := SomesOrder(results);
    assert forall i :: 0 <= i < |rows| ==> results[i] == RowMemento(rows[i]);
  }

  /** What every memento of a page satisfies. */
  lemma MementoShape(nodes: seq<Node>, m: Memento)
    requires m in Mementos(nodes)
    ensures IsClean(m.name) && 0 < |m.name| <= MaxNameLength
    ensures m.id == Slugify(Some(m.name)) && IsSlug(m.id)
    ensures m.description.Some? ==> 0 < |m.description.value| <= MaxDescriptionLength
    ensures m.tags == [GiftTag] && m.source == GiftTag && m.shareReward.None?
  {
    var idx := MementosFromRows(nodes);
    var rows := nodes[MementoTable(nodes).value].table.rows;
    var k :| 0 <= k < |Mementos(nodes)| && Mementos(nodes)[k] == m;
    RowMementoShape(rows[idx[k]], m);
  }

  /** What every memento of a row satisfies. */
  lemma RowMementoShape(row: Row, m: Memento)
    requires RowMemento(row) == Some(m)
    ensures IsClean(m.name) && 0 < |m.name| <= MaxNameLength
    ensures m.id == Slugify(Some(m.name)) && IsSlug(m.id)
    ensures m.description.Some? ==> 0 < |m.description.value| <= MaxDescriptionLength
    ensures m.tags == [GiftTag] && m.source == GiftTag && m.shareReward.None?
  {
  }

  // ---------- the steps of the source ----------

  /** The loop over the bold texts of a row. */
  method FirstBoldName(bolds: seq<Fragments>) returns (name: Option<string>)
    ensures name == BoldName(bolds)
  {
    var i := 0;
    while i < |bolds|
      invariant i <= |bolds|
      invariant BoldName(bolds) == BoldName(bolds[i..])
    {
      var t := CleanText(Some(bolds[i]));
      if t.Some? && |t.value| <= MaxNameLength {
        return t;
      }
      assert bolds[i..][1..] == bolds[i + 1..];
      i := i + 1;
    }
    return None;
  }

  /** The name steps of `parse_mementos`: the bold texts, then the text
      before "Serve". */
  method RowName(bolds: seq<Fragments>, text: string) returns (name: Option<string>)
    ensures name == PickName(bolds, text)
  {
    name := FirstBoldName(bolds);
    if name.None? {
      var before := Clean(Some(BeforeServe(text)));
      if before.Some? && |before.value| <= MaxNameLength {
        name := before;
      }
    }
  }

  /** The description steps of `parse_mementos`, rewriting `desc` one
      removal at a time. */
  method Describe(text: string, name: string, req: Option<string>) returns (d: Option<string>)
    ensures d == Description(text, name, req)
  {
    var desc := text;
    if req.Some? && req.value != [] {
      desc := ReplaceAll(desc, req.value, " ");
    }
    desc := DropPlusNumbers(desc);
    if name != [] {
      desc := ReplaceAll(desc, name, " ");
    }
    d := Clean(Some(desc));
    if d.Some? && |d.value| > MaxDescriptionLength {
      d := Some(d.value[..MaxDescriptionLength]);
    }
  }

  /** `parse_mementos` on one row. */
  method ParseRow(row: Row) returns (r: Option<Memento>)
    ensures r == RowMemento(row)
  {
    if HasHeaderCell(row) {
      return None;
    }
    var rowText := CleanText(Some(RowStrings(row)));
    if rowText.None? || !HasServeOrSell(rowText.value) {
      return None;
    }
    var text := rowText.value;
    var stars := Stars(text);
    var name := RowName(RowBolds(row), text);
    if name.None? {
      return None;
    }
    var req := Requirement(text);
    var desc := Describe(text, name.value, req);
    r := Some(Memento(Slugify(name), name.value, stars, desc, req, [GiftTag], GiftTag, None));
  }

  /** `_find_memento_table`. */
  method FindMementoTable(nodes: seq<Node>) returns (r: Option<nat>)
    ensures r == MementoTable(nodes)
  {
    var h := FindHeading(nodes, "Memento", 0);
    if h.None? {
      h := FindHeading(nodes, "Mementos", 0);
    }
    if h.None? {
      return None;
    }
    var ts := NextTablesAfter(nodes, h.value, TableSearchLimit);
    ghost var sig := Signatures(nodes, ts);
    var k := 0;
    while k < |ts|
      invariant k <= |ts|
      invariant FirstTrue(sig, 0) == FirstTrue(sig, k)
    {
      var txt := CleanText(Some(TableStrings(nodes[ts[k]].table))).GetOr("");
      if HasServeOrSell(txt) && HasPlusDigit(txt) {
        assert sig[k] == IsMementoTable(nodes[ts[k]].table);
        return Some(ts[k]);
      }
      assert sig[k] == IsMementoTable(nodes[ts[k]].table);
      k := k + 1;
    }
    return None;
  }

  /** The loop of `parse_mementos` over the rows of the table. */
  method ParseRows(rows: seq<Row>) returns (ms: seq<Memento>)
    ensures ms == Somes(RowResults(rows))
  {
    ghost var results := RowResults(rows);
    ms := [];
    var i := 0;
    while i < |rows|
      invariant i <= |rows|
      invariant ms == Somes(results[..i])
    {
      var m := ParseRow(rows[i]);
      assert results[i] == m;
      SomesStep(results, i);
      if m.Some? {
        ms := ms + [m.value];
      }
      i := i + 1;
    }
    assert results[..i] == results;
  }

  /** `parse_mementos`: the mementos of the rows of the memento table, in
      row order; none without the table. */
  method ParseMementos(nodes: seq<Node>) returns (ms: seq<Memento>)
    ensures ms == Mementos(nodes)
  {
    var t := FindMementoTable(nodes);
    if t.None? {
      return [];
    }
    ms := ParseRows(nodes[t.value].table.rows);
  }
}
