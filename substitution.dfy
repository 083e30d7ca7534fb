/**
 * The text engine of RandomTextHelper: the literal placeholder "%s", the randomization rules
 * and the string that getDrawTextRandom builds by splicing generated strings over the first
 * remaining placeholder, one rule at a time.
 */
module Substitution {
  import opened Wrappers

  // ---------------------------------------------------------------------------------------
  // Randomization rules and what the random generator returns for them
  // ---------------------------------------------------------------------------------------

  /** The generator a rule asks for (the TypeRandomEnum of a parsed rule). */
  datatype RuleKind = Alpha | Numeric | AlphaNumeric

  /** One parsed rule: which generator, and how many characters it draws. */
  datatype Rule = Rule(kind: RuleKind, length: nat)

  predicate IsLetter(c: char) { 'a' <= c <= 'z' || 'A' <= c <= 'Z' }

  predicate IsDigit(c: char) { '0' <= c <= '9' }

  /** The characters the generator of a kind may produce. */
  predicate InClass(kind: RuleKind, c: char)
  {
    match kind
    case Alpha => IsLetter(c)
    case Numeric => IsDigit(c)
    case AlphaNumeric => IsLetter(c) || IsDigit(c)
  }

  /** `s` is a possible output of the generator of `rule`: exactly `rule.length` characters of its class. */
  predicate Conforms(rule: Rule, s: string)
  {
    |s| == rule.length && forall i :: 0 <= i < |s| ==> InClass(rule.kind, s[i])
  }

  /** `gs` holds one possible generated string per rule, in rule order. */
  predicate Generated(rules: seq<Rule>, gs: seq<string>)
  {
    |gs| == |rules| && forall k :: 0 <= k < |rules| ==> Conforms(rules[k], gs[k])
  }

  /** No generated string contains the '%' that starts a placeholder. */
  predicate PlainStrings(gs: seq<string>)
  {
    forall k :: 0 <= k < |gs| ==> '%' !in gs[k]
  }

  lemma GeneratedArePlain(rules: seq<Rule>, gs: seq<string>)
    requires Generated(rules, gs)
    ensures PlainStrings(gs)
    ensures forall k :: 0 <= k < |gs| ==> (gs[k] == [] <==> rules[k].length == 0)
  {
    forall k | 0 <= k < |gs| ensures '%' !in gs[k] {
      assert forall i :: 0 <= i < |gs[k]| ==> InClass(rules[k].kind, gs[k][i]);
    }
  }

  // ---------------------------------------------------------------------------------------
  // The placeholder and the first-occurrence search
  // ---------------------------------------------------------------------------------------

  /** The literal two-character pattern "%s" starts at index `i` of `s`. */
  predicate PlaceholderAt(s: string, i: int)
  {
    0 <= i && i + 1 < |s| && s[i] == '%' && s[i + 1] == 's'
  }

  predicate HasPlaceholder(s: string)
  {
    exists i :: 0 <= i < |s| && PlaceholderAt(s, i)
  }

  /** `i` is the leftmost occurrence of the placeholder in `s`. */
  predicate IsFirstPlaceholder(s: string, i: int)
  {
    PlaceholderAt(s, i) && forall j :: 0 <= j < i ==> !PlaceholderAt(s, j)
  }

  /** The position a regex matcher for the literal "%s" finds first, scanning from index 0. */
  function FirstPlaceholder(s: string): (r: Option<nat>)
    ensures r.None? <==> !HasPlaceholder(s)
    ensures r.Some? ==> IsFirstPlaceholder(s, r.value)
    decreases |s|
  {
    if |s| < 2 then None
    else if s[0] == '%' && s[1] == 's' then assert PlaceholderAt(s, 0); Some(0)
    else
      match FirstPlaceholder(s[1..])
      case None =>
        assert forall j :: PlaceholderAt(s, j) ==> PlaceholderAt(s[1..], j - 1);
        None
      case Some(i) =>
        assert forall j :: 1 <= j <= i ==> (PlaceholderAt(s, j) <==> PlaceholderAt(s[1..], j - 1));
        assert PlaceholderAt(s, i + 1);
        Some(i + 1)
  }

  /**
   * replaceFirst with a quoted replacement: the first "%s" is replaced by `rep` taken literally,
   * the text before it and after it is kept; a string without "%s" is returned unchanged.
   */
  function ReplaceFirst(s: string, rep: string): (r: string)
    ensures !HasPlaceholder(s) ==> r == s
    ensures forall i :: IsFirstPlaceholder(s, i) ==> r == s[..i] + rep + s[i + 2..]
  {
    match FirstPlaceholder(s)
    case None => s
    case Some(i) =>
      assert forall j :: IsFirstPlaceholder(s, j) ==> j == i;
      s[..i] + rep + s[i + 2..]
  }

  // ---------------------------------------------------------------------------------------
  // getDrawTextRandom as a function: the loop over the rules, as written
  // ---------------------------------------------------------------------------------------

  /**
   * The working string after the rules whose generated strings are `gs` have run on `t`:
   * an empty generated string is skipped, any other replaces the first "%s" of the CURRENT
   * working string, so the search starts again at index 0 for every rule.
   */
  function Substitute(t: string, gs: seq<string>): (r: string)
    ensures !HasPlaceholder(t) ==> r == t
    decreases |gs|
  {
    if gs == [] then t
    else Substitute(if gs[0] == "" then t else ReplaceFirst(t, gs[0]), gs[1..])
  }

  // ---------------------------------------------------------------------------------------
  // The intended reading: placeholders of the template filled left to right
  // ---------------------------------------------------------------------------------------

  /**
   * Reference definition of filling a template: the placeholders of `t` are taken in order of
   * appearance, each non-empty generated string fills the next one, empty ones are skipped,
   * and inserted text is never searched again.
   */
  function Fill(t: string, gs: seq<string>): string
    decreases |gs|
  {
    if gs == [] then t
    else if gs[0] == "" then Fill(t, gs[1..])
    else
      match FirstPlaceholder(t)
      case None => t
      case Some(i) => t[..i] + gs[0] + Fill(t[i + 2..], gs[1..])
  }

  /**
   * No '%' of the template sits directly before a placeholder, i.e. the template holds no "%%s".
   * Other '%' signs ("100%", "%d", a trailing '%') are allowed.
   */
  predicate NoPercentBeforePlaceholder(t: string)
  {
    forall i :: 0 <= i < |t| && t[i] == '%' ==> !PlaceholderAt(t, i + 1)
  }

  /**
   * Text that, put in front of another string, can take no part in a placeholder: it holds none,
   * and it does not end in the '%' that would start one with the string behind it.
   */
  predicate Inert(a: string)
  {
    !HasPlaceholder(a) && (a == [] || a[|a| - 1] != '%')
  }

  /** The number of placeholders a left-to-right scan of `t` finds. */
  function PlaceholderCount(t: string): nat
    decreases |t|
  {
    match FirstPlaceholder(t)
    case None => 0
    case Some(i) => 1 + PlaceholderCount(t[i + 2..])
  }

  /** How many of the generated strings are non-empty, i.e. how many rules perform a replacement. */
  function NonEmptyCount(gs: seq<string>): nat
  {
    if gs == [] then 0 else (if gs[0] == "" then 0 else 1) + NonEmptyCount(gs[1..])
  }

  // ---------------------------------------------------------------------------------------
  // Lemmas
  // ---------------------------------------------------------------------------------------

  /** The leftmost occurrence is what the search returns. */
  lemma FirstPlaceholderIs(s: string, i: nat)
    requires IsFirstPlaceholder(s, i)
    ensures FirstPlaceholder(s) == Some(i)
  {
    assert HasPlaceholder(s);
  }

  /** Inert text in front of a string does not change where, relatively, "%s" is found. */
  lemma FirstPlaceholderAfterInert(a: string, b: string)
    requires Inert(a)
    ensures FirstPlaceholder(a + b) ==
      (match FirstPlaceholder(b) case None => None case Some(i) => Some(|a| + i))
  {
    var ab := a + b;
    forall j | 0 <= j < |a| ensures !PlaceholderAt(ab, j) {
      assert ab[j] == a[j];
      if j + 1 < |a| {
        assert ab[j + 1] == a[j + 1];
        assert !PlaceholderAt(a, j);
      }
    }
    forall j | 0 <= j < |b| ensures PlaceholderAt(ab, j + |a|) <==> PlaceholderAt(b, j) {
      assert ab[j + |a|] == b[j];
      if j + 1 < |b| { assert ab[j + 1 + |a|] == b[j + 1]; }
    }
    match FirstPlaceholder(b)
    case None =>
      forall j | 0 <= j < |ab| ensures !PlaceholderAt(ab, j) {
        if j >= |a| { assert !PlaceholderAt(b, j - |a|); }
      }
    case Some(i) =>
      forall j | |a| <= j < i + |a| ensures !PlaceholderAt(ab, j) {
        assert !PlaceholderAt(b, j - |a|);
      }
      assert PlaceholderAt(ab, i + |a|);
      FirstPlaceholderIs(ab, i + |a|);
  }

  /** Replacing in text behind an inert prefix: the prefix is kept. */
  lemma ReplaceFirstAfterInert(a: string, b: string, rep: string)
    requires Inert(a)
    ensures ReplaceFirst(a + b, rep) == a + ReplaceFirst(b, rep)
  {
    FirstPlaceholderAfterInert(a, b);
    if FirstPlaceholder(b).Some? {
      var i := FirstPlaceholder(b).value;
      SpliceAfterPrefix(a, b, rep, i);
    }
  }

  lemma SpliceAfterPrefix(a: string, b: string, rep: string, i: nat)
    requires i + 2 <= |b|
    ensures (a + b)[..|a| + i] + rep + (a + b)[|a| + i + 2..] == a + (b[..i] + rep + b[i + 2..])
  {
    var ab, k := a + b, |a| + i;
    assert ab[..k] == a + b[..i];
    assert ab[k + 2..] == b[i + 2..];
  }

  /** An inert prefix never takes part in a placeholder, so it lets the whole substitution through. */
  lemma {:induction false} SubstituteAfterInert(a: string, b: string, gs: seq<string>)
    requires Inert(a)
    ensures Substitute(a + b, gs) == a + Substitute(b, gs)
    decreases |gs|
  {
    if gs != [] {
      if gs[0] == "" {
        SubstituteAfterInert(a, b, gs[1..]);
      } else {
        ReplaceFirstAfterInert(a, b, gs[0]);
        SubstituteAfterInert(a, ReplaceFirst(b, gs[0]), gs[1..]);
      }
    }
  }

  /**
   * In a template without "%%s" the text before the first placeholder is inert, and the text
   * after it again holds no "%%s".
   */
  lemma InertBeforeFirst(t: string, i: nat)
    requires NoPercentBeforePlaceholder(t) && IsFirstPlaceholder(t, i)
    ensures Inert(t[..i])
    ensures NoPercentBeforePlaceholder(t[i + 2..])
  {
    var p := t[..i];
    forall j | 0 <= j < |p| ensures !PlaceholderAt(p, j) {
      assert !PlaceholderAt(t, j);
    }
    if i > 0 {
      assert p[i - 1] == t[i - 1];
    }
    var u := t[i + 2..];
    forall k | 0 <= k < |u| && u[k] == '%' ensures !PlaceholderAt(u, k + 1) {
      assert t[k + i + 2] == '%';
      assert !PlaceholderAt(t, k + i + 3);
    }
  }

  /** An inert prefix followed by a non-empty string without '%' is again inert. */
  lemma InertExtend(p: string, g: string)
    requires Inert(p) && g != "" && '%' !in g
    ensures Inert(p + g)
  {
    var pg := p + g;
    forall j | 0 <= j < |pg| ensures !PlaceholderAt(pg, j) {
      if j < |p| {
        assert pg[j] == p[j];
        if j + 1 < |p| {
          assert pg[j + 1] == p[j + 1];
          assert !PlaceholderAt(p, j);
        }
      } else {
        assert pg[j] == g[j - |p|];
      }
    }
    assert pg[|pg| - 1] == g[|g| - 1];
  }

  /** An inert prefix neither adds nor hides a placeholder. */
  lemma HasPlaceholderAfterInert(a: string, b: string)
    requires Inert(a)
    ensures HasPlaceholder(a + b) <==> HasPlaceholder(b)
  {
    FirstPlaceholderAfterInert(a, b);
  }

  /** The text up to the first placeholder, with that placeholder filled, is inert. */
  lemma FilledHeadInert(t: string, i: nat, g: string)
    requires NoPercentBeforePlaceholder(t) && IsFirstPlaceholder(t, i) && g != "" && '%' !in g
    ensures Inert(t[..i] + g)
  {
    InertBeforeFirst(t, i);
    InertExtend(t[..i], g);
  }

  /** One rule of the induction below: the first placeholder is filled, the rest is left to the later rules. */
  lemma FillFirstPlaceholder(t: string, gs: seq<string>, i: nat)
    requires gs != [] && gs[0] != "" && FirstPlaceholder(t) == Some(i)
    requires Inert(t[..i] + gs[0])
    requires Substitute(t[i + 2..], gs[1..]) == Fill(t[i + 2..], gs[1..])
    ensures Substitute(t, gs) == Fill(t, gs)
  {
    var head, rest := t[..i] + gs[0], t[i + 2..];
    calc {
      Substitute(t, gs);
      Substitute(ReplaceFirst(t, gs[0]), gs[1..]);
      { assert ReplaceFirst(t, gs[0]) == t[..i] + gs[0] + t[i + 2..]; }
      Substitute(head + rest, gs[1..]);
      { SubstituteAfterInert(head, rest, gs[1..]); }
      head + Substitute(rest, gs[1..]);
      head + Fill(rest, gs[1..]);
      Fill(t, gs);
    }
  }

  /**
   * On a template without "%%s" and generated strings without '%', the rule loop as written
   * (rescanning from index 0 every time) fills the placeholders left to right.
   */
  lemma {:induction false} SubstituteIsFill(t: string, gs: seq<string>)
    requires NoPercentBeforePlaceholder(t) && PlainStrings(gs)
    ensures Substitute(t, gs) == Fill(t, gs)
    decreases |gs|
  {
    if gs == [] {
    } else if gs[0] == "" {
      SubstituteIsFill(t, gs[1..]);
    } else if FirstPlaceholder(t).Some? {
      var i := FirstPlaceholder(t).value;
      InertBeforeFirst(t, i);
      SubstituteIsFill(t[i + 2..], gs[1..]);
      assert '%' !in gs[0];
      FilledHeadInert(t, i, gs[0]);
      FillFirstPlaceholder(t, gs, i);
    }
  }

  /** Enough non-empty '%'-free strings leave no placeholder in the filled template. */
  lemma {:induction false} FillLeavesNoPlaceholder(t: string, gs: seq<string>)
    requires NoPercentBeforePlaceholder(t) && PlainStrings(gs)
    requires NonEmptyCount(gs) >= PlaceholderCount(t)
    ensures !HasPlaceholder(Fill(t, gs))
    decreases |gs|
  {
    if gs == [] {
    } else if gs[0] == "" {
      FillLeavesNoPlaceholder(t, gs[1..]);
    } else {
      match FirstPlaceholder(t)
      case None =>
      case Some(i) =>
        InertBeforeFirst(t, i);
        assert '%' !in gs[0];
        InertExtend(t[..i], gs[0]);
        FillLeavesNoPlaceholder(t[i + 2..], gs[1..]);
        HasPlaceholderAfterInert(t[..i] + gs[0], Fill(t[i + 2..], gs[1..]));
    }
  }

  lemma {:induction false} NonEmptyCountOfGenerated(rules: seq<Rule>, gs: seq<string>)
    requires Generated(rules, gs)
    requires forall k :: 0 <= k < |rules| ==> rules[k].length > 0
    ensures NonEmptyCount(gs) == |gs|
    decreases |gs|
  {
    if gs != [] {
      assert Conforms(rules[0], gs[0]);
      assert Generated(rules[1..], gs[1..]) by {
        forall k | 0 <= k < |rules[1..]| ensures Conforms(rules[1..][k], gs[1..][k]) {
          assert Conforms(rules[k + 1], gs[k + 1]);
        }
      }
      NonEmptyCountOfGenerated(rules[1..], gs[1..]);
    }
  }

  /**
   * A template without "%%s", with k placeholders, and at least k rules of positive length: the
   * draw text is the template with its placeholders filled in order by the generated strings,
   * and no "%s" remains.
   */
  lemma DrawTextFillsTemplate(t: string, rules: seq<Rule>, gs: seq<string>)
    requires NoPercentBeforePlaceholder(t) && Generated(rules, gs)
    requires forall k :: 0 <= k < |rules| ==> rules[k].length > 0
    requires |rules| >= PlaceholderCount(t)
    ensures Substitute(t, gs) == Fill(t, gs)
    ensures !HasPlaceholder(Substitute(t, gs))
  {
    GeneratedArePlain(rules, gs);
    NonEmptyCountOfGenerated(rules, gs);
    SubstituteIsFill(t, gs);
    FillLeavesNoPlaceholder(t, gs);
  }

  /**
   * Because the search restarts at index 0 for every rule, a '%' of the template followed by an
   * inserted string that starts with 's' forms a placeholder that the next rule consumes:
   * "%%s" with "sab" then "xyz" gives "xyzab", not the left-to-right filling "%sab".
   */
  lemma RescanConsumesFormedPlaceholder()
    ensures Substitute("%%s", ["sab", "xyz"]) == "xyzab"
    ensures Fill("%%s", ["sab", "xyz"]) == "%sab"
  {
    assert IsFirstPlaceholder("%%s", 1);
    assert IsFirstPlaceholder("%sab", 0);
    assert "%%s"[..1] + "sab" + "%%s"[3..] == "%sab";
    assert "%sab"[..0] + "xyz" + "%sab"[2..] == "xyzab";
    assert Substitute("xyzab", []) == "xyzab";
    assert !HasPlaceholder("ab");
  }

  lemma ScoreTemplateShape()
    ensures NoPercentBeforePlaceholder("Score: %s/%s")
  {
    var t := "Score: %s/%s";
    forall i | 0 <= i < |t| && t[i] == '%' ensures !PlaceholderAt(t, i + 1) {
      assert i == 7 || i == 10;
    }
  }

  lemma ScoreTailCount()
    ensures PlaceholderCount("/%s") == 1
  {
    var u := "/%s";
    assert u[3..] == "";
    FirstPlaceholderIs(u, 1);
  }

  lemma ScoreTemplateCount()
    ensures PlaceholderCount("Score: %s/%s") == 2
  {
    var t := "Score: %s/%s";
    assert t[9..] == "/%s";
    FirstPlaceholderIs(t, 7);
    ScoreTailCount();
  }

  lemma ScoreTailFill(hs: seq<string>)
    requires |hs| == 1 && hs[0] != ""
    ensures Fill("/%s", hs) == "/" + hs[0]
  {
    var u := "/%s";
    assert u[..1] == "/" && u[3..] == "";
    FirstPlaceholderIs(u, 1);
    assert hs[1..] == [];
  }

  lemma ScoreFill(gs: seq<string>)
    requires Generated([Rule(Numeric, 2), Rule(Numeric, 3)], gs)
    ensures Fill("Score: %s/%s", gs) == "Score: " + gs[0] + "/" + gs[1]
  {
    var t := "Score: %s/%s";
    assert gs[0] != "" && gs[1] != "" by {
      assert Conforms(Rule(Numeric, 2), gs[0]) && Conforms(Rule(Numeric, 3), gs[1]);
    }
    ScoreTailFill(gs[1..]);
    assert Fill(t, gs) == "Score: " + gs[0] + Fill("/%s", gs[1..]) by {
      assert t[..7] == "Score: " && t[9..] == "/%s";
      FirstPlaceholderIs(t, 7);
    }
  }

  /** "Score: %s/%s" with a two-digit and a three-digit numeric rule: both numbers in order, no "%s" left. */
  lemma ScoreExample(gs: seq<string>)
    requires Generated([Rule(Numeric, 2), Rule(Numeric, 3)], gs)
    ensures Substitute("Score: %s/%s", gs) == "Score: " + gs[0] + "/" + gs[1]
    ensures !HasPlaceholder(Substitute("Score: %s/%s", gs))
  {
    var t, rules := "Score: %s/%s", [Rule(Numeric, 2), Rule(Numeric, 3)];
    assert forall k :: 0 <= k < |rules| ==> rules[k].length > 0;
    ScoreTemplateShape();
    ScoreTemplateCount();
    DrawTextFillsTemplate(t, rules, gs);
    ScoreFill(gs);
  }

  lemma LoadTemplateShape()
    ensures NoPercentBeforePlaceholder("Load: %s%")
    ensures PlaceholderCount("Load: %s%") == 1
  {
    var t := "Load: %s%";
    forall i | 0 <= i < |t| && t[i] == '%' ensures !PlaceholderAt(t, i + 1) {
      assert i == 6 || i == 8;
    }
    assert t[8..] == "%";
    FirstPlaceholderIs(t, 6);
    assert !HasPlaceholder("%");
  }

  lemma LoadFill(gs: seq<string>)
    requires Generated([Rule(Numeric, 2)], gs)
    ensures Fill("Load: %s%", gs) == "Load: " + gs[0] + "%"
  {
    var t := "Load: %s%";
    assert gs[0] != "" by { assert Conforms(Rule(Numeric, 2), gs[0]); }
    assert t[..6] == "Load: " && t[8..] == "%";
    FirstPlaceholderIs(t, 6);
    assert !HasPlaceholder("%");
    assert gs[1..] == [];
  }

  /**
   * A '%' that starts no placeholder, here a trailing one, is left alone: "Load: %s%" with one
   * two-digit numeric rule gives the number followed by the '%' sign.
   */
  lemma LoadExample(gs: seq<string>)
    requires Generated([Rule(Numeric, 2)], gs)
    ensures Substitute("Load: %s%", gs) == "Load: " + gs[0] + "%"
    ensures !HasPlaceholder(Substitute("Load: %s%", gs))
  {
    var t, rules := "Load: %s%", [Rule(Numeric, 2)];
    assert forall k :: 0 <= k < |rules| ==> rules[k].length > 0;
    LoadTemplateShape();
    DrawTextFillsTemplate(t, rules, gs);
    LoadFill(gs);
  }
}
