/** The mechanical quality checks of the repair pass: a list of issue
    messages for one generated text, and the yes/no verdict built on it. */
module Quality {
  import opened Text

  const NotCapitalized := "First letter is not capitalized."
  const MultipleLines := "Contains multiple lines of text."
  const NoIssuesDetected := "No issues detected."

  /** The self-referential terms looked for, in the order they are tested. */
  const SelfReferenceTerms := ["SEO", "Description"]

  function OddPunctuation(term: string): string
  {
    "Contains odd punctuation: " + term
  }

  /** One mechanical rule. */
  datatype Rule = Capitalization | SelfReference(term: string) | LineBreaks

  /** The rules in the order the check applies them and reports them. */
  const CheckOrder: seq<Rule> :=
    [Capitalization, SelfReference(SelfReferenceTerms[0]), SelfReference(SelfReferenceTerms[1]), LineBreaks]

  /** `text` breaks `rule`; the capitalization rule reads the first character,
      which an empty text does not have. */
  predicate Violates(text: string, rule: Rule)
    requires |text| > 0
  {
    match rule
    case Capitalization => IsLower(text[0])
    case SelfReference(term) => Contains(text, term)
    case LineBreaks => '\n' in text || '\r' in text
  }

  function Message(rule: Rule): string
  {
    match rule
    case Capitalization => NotCapitalized
    case SelfReference(term) => OddPunctuation(term)
    case LineBreaks => MultipleLines
  }

  /** The messages of the rules in `rules` that `text` breaks, in rule order. */
  function Violations(text: string, rules: seq<Rule>): seq<string>
    requires |text| > 0
  {
    if rules == [] then []
    else
      var last := rules[|rules| - 1];
      Violations(text, rules[..|rules| - 1]) + (if Violates(text, last) then [Message(last)] else [])
  }

  /** The report the check gives: the broken rules' messages, or the single
      pass message when none is broken. */
  function ExpectedReport(text: string): seq<string>
    requires |text| > 0
  {
    var found := Violations(text, CheckOrder);
    if found == [] then [NoIssuesDetected] else found
  }

  /** Some rule fires on `text`. */
  predicate HasIssues(text: string)
    requires |text| > 0
  {
    Violations(text, CheckOrder) != []
  }

  /** `mechanical_text_checks`: applies the rules one after another and
      collects the issues; the self-reference rule runs once per term. An
      empty text has no first character to test, so it is excluded. */
  method MechanicalTextChecks(text: string) returns (issues: seq<string>)
    requires |text| > 0
    ensures issues == ExpectedReport(text)
  {
    issues := [];
    if IsLower(text[0]) {
      issues := issues + [NotCapitalized];
    }
    assert issues == Violations(text, CheckOrder[..1]);
    for i := 0 to |SelfReferenceTerms|
      invariant issues == Violations(text, CheckOrder[..i + 1])
    {
      var term := SelfReferenceTerms[i];
      assert CheckOrder[..i + 2][..i + 1] == CheckOrder[..i + 1];
      if Contains(text, term) {
        issues := issues + [OddPunctuation(term)];
      }
    }
    assert CheckOrder[..4][..3] == CheckOrder[..3];
    if '\n' in text || '\r' in text {
      issues := issues + [MultipleLines];
    }
    assert CheckOrder[..4] == CheckOrder;
    if issues == [] {
      issues := [NoIssuesDetected];
    }
  }

  /** `check_and_report_issues`: true exactly when the report is not the
      single pass message. The field name and row number only go to the log. */
  method CheckAndReportIssues(text: string) returns (found: bool)
    requires |text| > 0
    ensures found <==> HasIssues(text)
  {
    var issues := MechanicalTextChecks(text);
    ReportIsPassOnlyWhenClean(text);
    found := issues != [NoIssuesDetected];
  }

  /** Every message the rules can give differs from the pass message. */
  lemma {:induction false} ViolationsAreIssues(text: string, rules: seq<Rule>)
    requires |text| > 0
    requires forall k :: 0 <= k < |rules| ==> rules[k] in CheckOrder
    ensures forall m :: m in Violations(text, rules) ==> m != NoIssuesDetected
  {
    if rules != [] {
      var last := rules[|rules| - 1];
      ViolationsAreIssues(text, rules[..|rules| - 1]);
      assert last in CheckOrder;
      assert Message(last) != NoIssuesDetected by {
        assert Message(last)[0] != NoIssuesDetected[0];
      }
    }
  }

  /** The report is the pass message exactly when no rule fires. */
  lemma ReportIsPassOnlyWhenClean(text: string)
    requires |text| > 0
    ensures ExpectedReport(text) == [NoIssuesDetected] <==> !HasIssues(text)
  {
    ViolationsAreIssues(text, CheckOrder);
    var found := Violations(text, CheckOrder);
    if found != [] {
      assert found[0] in found;
    }
  }

  /** A message is reported by `rules` exactly when one of those rules fires
      and gives it. */
  lemma {:induction false} InViolations(text: string, rules: seq<Rule>, m: string)
    requires |text| > 0
    ensures m in Violations(text, rules) <==> exists k :: 0 <= k < |rules| && Violates(text, rules[k]) && Message(rules[k]) == m
  {
    if rules != [] {
      var init := rules[..|rules| - 1];
      InViolations(text, init, m);
      if m in Violations(text, init) {
        var k :| 0 <= k < |init| && Violates(text, init[k]) && Message(init[k]) == m;
        assert rules[k] == init[k];
      }
      if exists k :: 0 <= k < |rules| && Violates(text, rules[k]) && Message(rules[k]) == m {
        var k :| 0 <= k < |rules| && Violates(text, rules[k]) && Message(rules[k]) == m;
        if k < |init| {
          assert init[k] == rules[k];
        }
      }
    }
  }

  /** No two rules of the check give the same message. */
  lemma MessagesDistinct()
    ensures forall i, j :: 0 <= i < j < |CheckOrder| ==> Message(CheckOrder[i]) != Message(CheckOrder[j])
  {
    assert NotCapitalized[0] != OddPunctuation("SEO")[0];
    assert NotCapitalized[0] != MultipleLines[0];
    assert OddPunctuation("SEO")[26] != OddPunctuation("Description")[26];
    assert OddPunctuation("SEO")[9] != MultipleLines[9];
    assert OddPunctuation("Description")[9] != MultipleLines[9];
  }

  /** What each rule contributes to the report, in both directions: each
      issue message appears exactly when its rule fires. */
  lemma ReportMembership(text: string)
    requires |text| > 0
    ensures NotCapitalized in ExpectedReport(text) <==> IsLower(text[0])
    ensures OddPunctuation("SEO") in ExpectedReport(text) <==> Contains(text, "SEO")
    ensures OddPunctuation("Description") in ExpectedReport(text) <==> Contains(text, "Description")
    ensures MultipleLines in ExpectedReport(text) <==> '\n' in text || '\r' in text
    ensures NoIssuesDetected in ExpectedReport(text) <==> !HasIssues(text)
  {
    MessagesDistinct();
    ViolationsAreIssues(text, CheckOrder);
    InViolations(text, CheckOrder, NotCapitalized);
    InViolations(text, CheckOrder, OddPunctuation("SEO"));
    InViolations(text, CheckOrder, OddPunctuation("Description"));
    InViolations(text, CheckOrder, MultipleLines);
    assert Message(CheckOrder[0]) == NotCapitalized;
    assert Message(CheckOrder[1]) == OddPunctuation("SEO");
    assert Message(CheckOrder[2]) == OddPunctuation("Description");
    assert Message(CheckOrder[3]) == MultipleLines;
  }

  /** The report is never empty and holds at most one message per rule. */
  lemma ReportSize(text: string)
    requires |text| > 0
    ensures 1 <= |ExpectedReport(text)| <= 4
  {
    ViolationsLength(text, CheckOrder);
  }

  lemma {:induction false} ViolationsLength(text: string, rules: seq<Rule>)
    requires |text| > 0
    ensures |Violations(text, rules)| <= |rules|
  {
    if rules != [] {
      ViolationsLength(text, rules[..|rules| - 1]);
    }
  }

  /** When both self-referential terms occur, the "SEO" message comes right
      before the "Description" message, after the capitalization message if
      that fires. */
  lemma SelfReferenceOrder(text: string)
    requires |text| > 0 && Contains(text, "SEO") && Contains(text, "Description")
    ensures var k := if IsLower(text[0]) then 1 else 0;
      k + 1 < |ExpectedReport(text)|
      && ExpectedReport(text)[k] == OddPunctuation("SEO")
      && ExpectedReport(text)[k + 1] == OddPunctuation("Description")
  {
    var first := if IsLower(text[0]) then [NotCapitalized] else [];
    assert CheckOrder[..1][..0] == [];
    assert Violations(text, CheckOrder[..1]) == first;
    assert CheckOrder[..2][..1] == CheckOrder[..1];
    assert Violations(text, CheckOrder[..2]) == first + [OddPunctuation("SEO")];
    assert CheckOrder[..3][..2] == CheckOrder[..2];
    var both := first + [OddPunctuation("SEO")] + [OddPunctuation("Description")];
    assert Violations(text, CheckOrder[..3]) == both;
    assert CheckOrder[..4][..3] == CheckOrder[..3];
    assert CheckOrder[..4] == CheckOrder;
    assert Violations(text, CheckOrder)[..|both|] == both;
  }
}
