/** The quality-control pass: every row that is not a tag page and whose
    description or SEO title fails the mechanical checks gets one repair
    attempt, which re-scrapes the page and asks the revision prompts for
    both fields. */
module Repair {
  import opened Text
  import opened Generation
  import opened Rows
  import opened Quality

  /** The repair pass skips every row whose url contains this word anywhere. */
  const TagsWord := "tags"

  predicate IsTagRow(row: Row)
  {
    Contains(row.url, TagsWord)
  }

  /** The checks can be run on the row: a row that is not skipped has both
      generated cells non-empty (the check reads the first character). */
  predicate Checkable(row: Row)
  {
    IsTagRow(row) || (|row.metaDescription| > 0 && |row.seoTitle| > 0)
  }

  /** The row is not skipped and at least one of its two generated cells
      fails the checks. */
  predicate NeedsRepair(row: Row)
    requires Checkable(row)
  {
    !IsTagRow(row) && (HasIssues(row.metaDescription) || HasIssues(row.seoTitle))
  }

  /** What one repair attempt writes for the page at `url`: nothing when the
      re-scrape gives an empty title or body, otherwise the scraped title and
      the two revised texts, each asked about a prefix of the body (1000
      characters for the description, 500 for the SEO title). */
  function Revision(url: string, svc: Services): (r: Option<Fields>)
    ensures var (title, body) := svc.scrape(url);
      r.None? <==> title == "" || body == ""
    ensures var (title, body) := svc.scrape(url);
      r.Some? ==> r.value == Fields(
        title,
        Generate(svc.reviseDescription, title, Some(body[..Min(|body|, 1000)])),
        Generate(svc.reviseTitle, title, Some(body[..Min(|body|, 500)])))
  {
    var (title, body) := svc.scrape(url);
    PrefixSlice(body, 1000);
    PrefixSlice(body, 500);
    if title == "" || body == "" then None
    else Some(Fields(
      title,
      Generate(svc.reviseDescription, title, Some(PySlice(body, 0, 1000))),
      Generate(svc.reviseTitle, title, Some(PySlice(body, 0, 500)))))
  }

  /** `correct_and_update_row`: re-scrape the row's page and, unless that
      fails, overwrite exactly its title, description and SEO title. */
  method CorrectAndUpdateRow(df: array<Row>, index: nat, svc: Services) returns (corrected: bool)
    requires index < df.Length
    modifies df
    ensures corrected == Revision(old(df[index]).url, svc).Some?
    ensures corrected ==> df[..] == old(df[..])[index := WithFields(old(df[index]), Revision(old(df[index]).url, svc).value)]
    ensures !corrected ==> df[..] == old(df[..])
  {
    var url := df[index].url;
    var (title, body) := svc.scrape(url);
    if title == "" || body == "" {
      return false;
    }
    var description := Generate(svc.reviseDescription, title, Some(PySlice(body, 0, 1000)));
    var seoTitle := Generate(svc.reviseTitle, title, Some(PySlice(body, 0, 500)));
    df[index] := df[index].(title := title);
    df[index] := df[index].(metaDescription := description);
    df[index] := df[index].(seoTitle := seoTitle);
    return true;
  }

  /** What the pass reports for one row. */
  datatype RowReport = SkippedTag | NoIssues | Corrected | CorrectionFailed

  /** The row after the pass: repaired when it needs it and the re-scrape
      succeeds, otherwise as it was. */
  function RepairedRow(row: Row, svc: Services): Row
    requires Checkable(row)
  {
    if !NeedsRepair(row) then row
    else match Revision(row.url, svc)
      case None => row
      case Some(f) => WithFields(row, f)
  }

  function ReportFor(row: Row, svc: Services): RowReport
    requires Checkable(row)
  {
    if IsTagRow(row) then SkippedTag
    else if !NeedsRepair(row) then NoIssues
    else if Revision(row.url, svc).Some? then Corrected
    else CorrectionFailed
  }

  /** The loop over the table (qc.py:172-188): one visit per row, in table
      order; each row ends up as `RepairedRow` of what it was, and the
      report says what happened to it. */
  method RepairPass(df: array<Row>, svc: Services) returns (reports: seq<RowReport>)
    requires forall i :: 0 <= i < df.Length ==> Checkable(df[i])
    modifies df
    ensures |reports| == df.Length
    ensures forall i :: 0 <= i < df.Length ==> df[i] == RepairedRow(old(df[i]), svc)
    ensures forall i :: 0 <= i < df.Length ==> reports[i] == ReportFor(old(df[i]), svc)
  {
    reports := [];
    for index := 0 to df.Length
      invariant |reports| == index
      invariant forall i :: 0 <= i < index ==> df[i] == RepairedRow(old(df[i]), svc)
      invariant forall i :: 0 <= i < index ==> reports[i] == ReportFor(old(df[i]), svc)
      invariant forall i :: index <= i < df.Length ==> df[i] == old(df[i])
    {
      var row := df[index];
      if Contains(row.url, TagsWord) {
        reports := reports + [SkippedTag];
      } else {
        var descriptionIssues := CheckAndReportIssues(row.metaDescription);
        var titleIssues := CheckAndReportIssues(row.seoTitle);
        if descriptionIssues || titleIssues {
          var corrected := CorrectAndUpdateRow(df, index, svc);
          reports := reports + [if corrected then Corrected else CorrectionFailed];
        } else {
          reports := reports + [NoIssues];
        }
      }
    }
  }

  /** The pass never touches the url, the id or the processed flag, leaves
      tag rows as they are, and changes a row only when it needs repair,
      and then to exactly what the revision gives. */
  lemma RepairFrame(row: Row, svc: Services)
    requires Checkable(row)
    ensures var r := RepairedRow(row, svc);
      && r.url == row.url && r.id == row.id && r.processed == row.processed
      && (IsTagRow(row) ==> r == row)
      && (r != row ==> NeedsRepair(row))
      && (NeedsRepair(row) && Revision(row.url, svc).Some? ==> r == WithFields(row, Revision(row.url, svc).value))
  {
  }

  /** A row the pass left passing the checks is left alone by a second pass. */
  lemma RepairSettles(row: Row, svc: Services)
    requires Checkable(row)
    requires Checkable(RepairedRow(row, svc)) && !NeedsRepair(RepairedRow(row, svc))
    ensures RepairedRow(RepairedRow(row, svc), svc) == RepairedRow(row, svc)
  {
  }

  /** A description starting with a lower-case letter is replaced by the
      revised description of a fresh scrape, when that scrape succeeds. */
  lemma LowercaseDescriptionRepaired(row: Row, svc: Services)
    requires !IsTagRow(row) && |row.metaDescription| > 0 && |row.seoTitle| > 0
    requires IsLower(row.metaDescription[0])
    requires Revision(row.url, svc).Some?
    ensures RepairedRow(row, svc).metaDescription == Revision(row.url, svc).value.metaDescription
    ensures ReportFor(row, svc) == Corrected
  {
    ReportMembership(row.metaDescription);
  }
}
