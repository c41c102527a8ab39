/** The enrichment run: a global work budget, the per-row worker with its
    tag-page and fetch-and-generate branches, and the coordinating routine
    that submits unprocessed rows and writes the workers' results back.
    The worker pool is modelled sequentially: workers claim the budget one
    at a time in some claim order, and their results are consumed in some
    completion order; both orders are parameters. */
module Scheduler {
  import opened Text
  import opened Generation
  import opened Rows
  import Repair

  /** The ceiling on rows claimed in one run. */
  const MaxLoops: nat := 1000

  /** A url containing this is a tag index page. */
  const TagSeparator := "/tags/"

  /** The process-wide counter of rows claimed so far and its ceiling; the
      lock around the check-and-increment makes `Claim` one atomic step. */
  class WorkBudget {
    var loopcount: nat
    const maxloops: nat

    predicate Valid()
      reads this
    {
      loopcount <= maxloops
    }

    constructor ()
      ensures Valid() && loopcount == 0 && maxloops == MaxLoops
    {
      loopcount := 0;
      maxloops := MaxLoops;
    }

    /** Claims one unit of the budget if any is left. */
    method Claim() returns (claimed: bool)
      requires Valid()
      modifies this
      ensures Valid()
      ensures claimed <==> old(loopcount) < maxloops
      ensures loopcount == if claimed then old(loopcount) + 1 else old(loopcount)
    {
      if loopcount >= maxloops {
        return false;
      }
      loopcount := loopcount + 1;
      return true;
    }
  }

  /** What a worker hands back for one row. `NoBudget` is the `None` the
      worker returns when the budget is spent. `UnboundDescription` is the
      tag-page branch, which computes a tag, a title and an SEO title and then
      fails because the description it returns was never bound; the fields
      record what it had computed. `Completed` is the fetch-and-generate
      branch. */
  datatype RowOutcome =
    | NoBudget
    | UnboundDescription(tag: string, title: string, seoTitle: string, unusedDescription: string)
    | Completed(fields: Fields, success: bool)

  predicate IsTagUrl(url: string)
  {
    Contains(url, TagSeparator)
  }

  /** `url.split('/tags/')[-1]`. */
  function TagOf(url: string): string
  {
    LastPiece(url, TagSeparator)
  }

  /** The fields the fetch-and-generate branch returns for `url`: the scraped
      title, and generated texts asked about body prefixes of at most 1000
      and 500 characters. Nothing checks that the scrape succeeded. */
  function FetchFields(url: string, svc: Services): (f: Fields)
    ensures var (title, body) := svc.scrape(url);
      f == Fields(
        title,
        Generate(svc.describe, title, Some(body[..Min(|body|, 1000)])),
        Generate(svc.entitle, title, Some(body[..Min(|body|, 500)])))
  {
    var (title, body) := svc.scrape(url);
    PrefixSlice(body, 1000);
    PrefixSlice(body, 500);
    Fields(
      title,
      Generate(svc.describe, title, Some(PySlice(body, 0, 1000))),
      Generate(svc.entitle, title, Some(PySlice(body, 0, 500))))
  }

  /** What the worker computes once it holds a unit of budget. */
  function Branch(row: Row, svc: Services): RowOutcome
  {
    if IsTagUrl(row.url) then
      var tag := TagOf(row.url);
      UnboundDescription(
        tag,
        "Tagged: " + tag,
        Generate(svc.entitle, row.title, Some("Articles related to " + tag + " on RVA Magazine")),
        "Explore articles related to " + tag + " on RVA Magazine.")
    else
      Completed(FetchFields(row.url, svc), true)
  }

  /** `process_row`: claim a unit of budget, then run the branch for the
      row's url. The half-second pause is left out. */
  method ProcessRow(row: Row, budget: WorkBudget, svc: Services) returns (outcome: RowOutcome)
    requires budget.Valid()
    modifies budget
    ensures budget.Valid()
    ensures outcome == if old(budget.loopcount) < budget.maxloops then Branch(row, svc) else NoBudget
    ensures budget.loopcount == if old(budget.loopcount) < budget.maxloops then old(budget.loopcount) + 1 else old(budget.loopcount)
  {
    var claimed := budget.Claim();
    if !claimed {
      return NoBudget;
    }
    var url, title := row.url, row.title;
    if Contains(url, TagSeparator) {
      var tag := LastPiece(url, TagSeparator);
      var generatedMetaDescription := "Explore articles related to " + tag + " on RVA Magazine.";
      var seoTitle := Generate(svc.entitle, title, Some("Articles related to " + tag + " on RVA Magazine"));
      title := "Tagged: " + tag;
      // The return statement reads `meta_description`, which this path never binds.
      return UnboundDescription(tag, title, seoTitle, generatedMetaDescription);
    }
    var (scrapedTitle, body) := svc.scrape(url);
    var metaDescription := Generate(svc.describe, scrapedTitle, Some(PySlice(body, 0, 1000)));
    var seoTitle := Generate(svc.entitle, scrapedTitle, Some(PySlice(body, 0, 500)));
    return Completed(Fields(scrapedTitle, metaDescription, seoTitle), true);
  }

  /** The tag-page branch always fails, after computing the title
      "Tagged: <tag>" from the piece of the url after the tag separator and
      asking only the SEO-title generator, about a synthesized excerpt; the
      other branch always reports success with the scraped title, even when
      the scrape gave nothing. */
  lemma BranchOutcomes(row: Row, svc: Services)
    ensures var o := Branch(row, svc);
      && (o.UnboundDescription? <==> IsTagUrl(row.url))
      && (o.Completed? <==> !IsTagUrl(row.url))
    ensures var o := Branch(row, svc);
      o.UnboundDescription? ==>
        && o.title == "Tagged: " + o.tag
        && EndsWith(row.url, TagSeparator + o.tag)
        && !Contains(o.tag, TagSeparator)
        && o.seoTitle == Generate(svc.entitle, row.title, Some("Articles related to " + o.tag + " on RVA Magazine"))
    ensures var o := Branch(row, svc);
      o.Completed? ==> o.success && o.fields.title == svc.scrape(row.url).0
  {
    if IsTagUrl(row.url) {
      TagIsLastPiece(row.url);
    }
  }

  /** The tag of a tag-page url is what follows the last separator the
      split finds: the url ends in the separator and the tag. */
  lemma TagIsLastPiece(url: string)
    requires IsTagUrl(url)
    ensures EndsWith(url, TagSeparator + TagOf(url)) && !Contains(TagOf(url), TagSeparator)
  {
    LastPieceSpec(url, TagSeparator);
    var tag := TagOf(url);
    var start := |url| - |tag| - |TagSeparator|;
    assert url[start..] == url[start..start + |TagSeparator|] + url[|url| - |tag|..];
  }

  /** For a url of the form `<p>/tags/<tag>` with no `/` in the tag, the tag
      is recovered exactly, unless `p` itself ends in `/tags` (then Python's
      left-to-right split cuts earlier). */
  lemma TagOfSimpleUrl(p: string, tag: string)
    requires '/' !in tag && !EndsWith(p, "/tags")
    ensures TagOf(p + TagSeparator + tag) == tag
  {
    var url := p + TagSeparator + tag;
    SeparatorAfterPrefix(url, p, tag);
    LastPieceSpec(url, TagSeparator);
    PieceIsTag(url, p, tag, LastPiece(url, TagSeparator));
  }

  lemma SeparatorAfterPrefix(url: string, p: string, tag: string)
    requires url == p + TagSeparator + tag
    ensures Contains(url, TagSeparator)
  {
    assert url[|p|..|p| + 6] == TagSeparator;
    assert OccursAt(url, TagSeparator, |p|);
  }

  /** A suffix of `<p>/tags/<tag>` that follows the separator and does not
      contain it is the tag itself, under the conditions above. */
  lemma PieceIsTag(url: string, p: string, tag: string, r: string)
    requires url == p + TagSeparator + tag && '/' !in tag && !EndsWith(p, "/tags")
    requires |r| <= |url| && r == url[|url| - |r|..] && !Contains(r, TagSeparator)
    requires OccursAt(url, TagSeparator, |url| - |r| - 6)
    ensures r == tag
  {
    if |r| < |tag| {
      ShortPieceNotAfterSeparator(url, p, tag, |r|);
    } else if |r| >= |tag| + 6 {
      LongPieceHoldsSeparator(url, p, tag, r);
    } else if |r| > |tag| {
      InnerPieceNotAfterSeparator(url, p, tag, |r|);
    } else {
      assert url[|url| - |tag|..] == tag;
    }
  }

  /** A suffix shorter than a slash-free tag is not preceded by the
      separator: the character before it is a character of the tag. */
  lemma ShortPieceNotAfterSeparator(url: string, p: string, tag: string, n: nat)
    requires url == p + TagSeparator + tag && '/' !in tag && n < |tag|
    ensures !OccursAt(url, TagSeparator, |url| - n - 6)
  {
    var window := url[|url| - n - 6..|url| - n];
    assert window[5] == tag[|tag| - n - 1];
    assert window[5] != TagSeparator[5];
  }

  /** A suffix reaching back over the separator before the tag contains it. */
  lemma LongPieceHoldsSeparator(url: string, p: string, tag: string, r: string)
    requires url == p + TagSeparator + tag
    requires |r| >= |tag| + 6 && |r| <= |url| && r == url[|url| - |r|..]
    ensures Contains(r, TagSeparator)
  {
    var j := |r| - |tag|;
    assert r[j - 6..j] == url[|p|..|p| + 6];
    assert url[|p|..|p| + 6] == TagSeparator;
    assert OccursAt(r, TagSeparator, j - 6);
  }

  /** A suffix starting inside the separator before the tag is preceded by
      a letter of `tags`, or, for the suffix `tags/<tag>`, by a `/tags/` that
      would make `p` end in `/tags`. */
  lemma InnerPieceNotAfterSeparator(url: string, p: string, tag: string, n: nat)
    requires url == p + TagSeparator + tag && !EndsWith(p, "/tags")
    requires |tag| < n < |tag| + 6
    ensures !OccursAt(url, TagSeparator, |url| - n - 6)
  {
    var j := n - |tag|;
    if j <= |p| {
      if j < 5 {
        LetterBeforePiece(url, p, tag, j);
      } else {
        PrefixBeforePiece(url, p, tag);
      }
    }
  }

  /** Before a suffix starting `j` characters into the separator (`j` from
      1 to 4) stands one of the letters of `tags`, not a `/`. */
  lemma LetterBeforePiece(url: string, p: string, tag: string, j: nat)
    requires url == p + TagSeparator + tag && 0 < j < 5 && j <= |p|
    ensures !OccursAt(url, TagSeparator, |p| - j)
  {
    assert url[|p| + 5 - j] == TagSeparator[5 - j];
    assert TagSeparator[5 - j] != '/';
    assert url[|p| - j..|p| - j + 6][5] == url[|p| + 5 - j];
  }

  /** Before the suffix `tags/<tag>` stand the last five characters of `p`,
      which are not `/tags`. */
  lemma PrefixBeforePiece(url: string, p: string, tag: string)
    requires url == p + TagSeparator + tag && !EndsWith(p, "/tags") && 5 <= |p|
    ensures !OccursAt(url, TagSeparator, |p| - 5)
  {
    var tail := p[|p| - 5..];
    assert tail != TagSeparator[..5];
    var k :| 0 <= k < 5 && tail[k] != TagSeparator[k];
    assert url[|p| - 5 + k] == tail[k];
    assert url[|p| - 5..|p| + 1][k] == url[|p| - 5 + k];
  }

  /** Distinct elements. */
  predicate Distinct(s: seq<nat>)
  {
    forall i, j :: 0 <= i < j < |s| ==> s[i] != s[j]
  }

  /** `order` lists the elements of `items` once each, in some order. */
  ghost predicate IsOrdering(order: seq<nat>, items: seq<nat>)
  {
    Distinct(order) && |order| == |items| && (forall x :: x in order <==> x in items)
  }

  /** The indices of the rows whose `processed` flag is not set, in table order. */
  function Pending(rows: seq<Row>): seq<nat>
  {
    if rows == [] then []
    else Pending(rows[..|rows| - 1]) + (if !rows[|rows| - 1].processed then [|rows| - 1] else [])
  }

  /** The rows `main` submits: the first `maxloops` pending ones. */
  function Submitted(rows: seq<Row>, maxloops: nat): seq<nat>
  {
    var p := Pending(rows);
    p[..Min(|p|, maxloops)]
  }

  /** Exactly the unprocessed rows are pending, each once, in increasing order. */
  lemma {:induction false} PendingIndices(rows: seq<Row>)
    ensures forall k :: 0 <= k < |Pending(rows)| ==> Pending(rows)[k] < |rows| && !rows[Pending(rows)[k]].processed
    ensures forall j, k :: 0 <= j < k < |Pending(rows)| ==> Pending(rows)[j] < Pending(rows)[k]
    ensures forall i :: 0 <= i < |rows| && !rows[i].processed ==> i in Pending(rows)
  {
    if rows != [] {
      var init := rows[..|rows| - 1];
      PendingIndices(init);
      assert forall i :: 0 <= i < |init| ==> init[i] == rows[i];
    }
  }

  /** At most `maxloops` rows are submitted, each unprocessed and each once;
      when no more than `maxloops` rows are pending, all of them are. */
  lemma SubmittedIndices(rows: seq<Row>, maxloops: nat)
    ensures |Submitted(rows, maxloops)| <= maxloops
    ensures Distinct(Submitted(rows, maxloops))
    ensures forall x :: x in Submitted(rows, maxloops) ==> x < |rows| && !rows[x].processed
    ensures |Pending(rows)| <= maxloops ==>
      forall i :: 0 <= i < |rows| && !rows[i].processed ==> i in Submitted(rows, maxloops)
  {
    PendingIndices(rows);
    var p := Pending(rows);
    assert |p| <= maxloops ==> Submitted(rows, maxloops) == p;
  }

  /** The submission loop of `main`: walks the table in order and submits
      each row whose `processed` flag is not set, until `maxloops` rows have
      been submitted. */
  method SubmitRows(df: array<Row>, maxloops: nat) returns (submitted: seq<nat>)
    ensures submitted == Submitted(df[..], maxloops)
  {
    submitted := [];
    var submittedCount := 0;
    for index := 0 to df.Length
      invariant submitted == Submitted(df[..index], maxloops)
      invariant submittedCount == |submitted|
    {
      assert df[..index + 1][..index] == df[..index];
      if !df[index].processed && submittedCount < maxloops {
        submitted := submitted + [index];
        submittedCount := submittedCount + 1;
      }
    }
    assert df[..df.Length] == df[..];
  }

  /** The outcome of the worker whose claim is preceded by `claimsBefore`
      units already taken. */
  function WorkerOutcome(row: Row, claimsBefore: nat, maxloops: nat, svc: Services): RowOutcome
  {
    if claimsBefore < maxloops then Branch(row, svc) else NoBudget
  }

  /** `outcomes` holds one result per row of `claimOrder` and no other: the
      outcome of that row's worker, whose claim came after `start` units
      already taken and after the claims of the `k` rows before it. */
  ghost predicate WorkerResults(outcomes: map<nat, RowOutcome>, snapshot: seq<Row>, claimOrder: seq<nat>,
                                start: nat, maxloops: nat, svc: Services)
  {
    && (forall x :: x in outcomes ==> x in claimOrder)
    && (forall k :: 0 <= k < |claimOrder| ==> claimOrder[k] < |snapshot| && claimOrder[k] in outcomes)
    && (forall k :: 0 <= k < |claimOrder| ==>
         outcomes[claimOrder[k]] == WorkerOutcome(snapshot[claimOrder[k]], start + k, maxloops, svc))
  }

  /** The outcome each worker of `claimOrder` is due, by claim position. */
  function DueOutcomes(snapshot: seq<Row>, claimOrder: seq<nat>, start: nat, maxloops: nat, svc: Services): (due: seq<RowOutcome>)
    requires forall k :: 0 <= k < |claimOrder| ==> claimOrder[k] < |snapshot|
    ensures |due| == |claimOrder|
  {
    seq(|claimOrder|, k requires 0 <= k < |claimOrder| => WorkerOutcome(snapshot[claimOrder[k]], start + k, maxloops, svc))
  }

  /** The first `n` keys of `order` map to the first `n` values of `due`,
      and `m` has no other key. */
  ghost predicate RecordedUpTo<V>(m: map<nat, V>, order: seq<nat>, due: seq<V>, n: nat)
    requires n <= |order| && n <= |due|
  {
    && (forall x :: x in m ==> x in order[..n])
    && (forall j :: 0 <= j < n ==> order[j] in m && m[order[j]] == due[j])
  }

  /** Recording the next value under the next key of a list of distinct
      keys keeps every earlier entry. */
  lemma RecordNext<V>(m: map<nat, V>, order: seq<nat>, due: seq<V>, k: nat)
    requires Distinct(order) && k < |order| && |order| == |due|
    requires RecordedUpTo(m, order, due, k)
    ensures RecordedUpTo(m[order[k] := due[k]], order, due, k + 1)
  {
    assert order[..k + 1] == order[..k] + [order[k]];
  }

  /** A claim that finds `count` units taken, after `k` claims that began
      from `start`, succeeds exactly when `start + k` is below the ceiling. */
  lemma ClaimSucceeds(branch: RowOutcome, count: nat, start: nat, k: nat, maxloops: nat, outcome: RowOutcome)
    requires count == Min(maxloops, start + k)
    requires outcome == if count < maxloops then branch else NoBudget
    ensures outcome == if start + k < maxloops then branch else NoBudget
  {
  }

  /** The claim of the worker at claim position `k` finds `count` units
      taken; its outcome is the one it is due. */
  lemma ClaimOutcome(snapshot: seq<Row>, claimOrder: seq<nat>, start: nat, maxloops: nat, svc: Services,
                     k: nat, count: nat, outcome: RowOutcome)
    requires forall j :: 0 <= j < |claimOrder| ==> claimOrder[j] < |snapshot|
    requires k < |claimOrder| && count == Min(maxloops, start + k)
    requires outcome == if count < maxloops then Branch(snapshot[claimOrder[k]], svc) else NoBudget
    ensures outcome == DueOutcomes(snapshot, claimOrder, start, maxloops, svc)[k]
  {
    ClaimSucceeds(Branch(snapshot[claimOrder[k]], svc), count, start, k, maxloops, outcome);
    DueAt(snapshot, claimOrder, start, maxloops, svc, k);
  }

  /** The outcome the worker at claim position `k` is due. */
  lemma DueAt(snapshot: seq<Row>, claimOrder: seq<nat>, start: nat, maxloops: nat, svc: Services, k: nat)
    requires forall j :: 0 <= j < |claimOrder| ==> claimOrder[j] < |snapshot|
    requires k < |claimOrder|
    ensures DueOutcomes(snapshot, claimOrder, start, maxloops, svc)[k]
      == if start + k < maxloops then Branch(snapshot[claimOrder[k]], svc) else NoBudget
  {
  }

  /** All workers have run. */
  lemma AllResults(outcomes: map<nat, RowOutcome>, snapshot: seq<Row>, claimOrder: seq<nat>,
                   start: nat, maxloops: nat, svc: Services)
    requires forall k :: 0 <= k < |claimOrder| ==> claimOrder[k] < |snapshot|
    requires RecordedUpTo(outcomes, claimOrder, DueOutcomes(snapshot, claimOrder, start, maxloops, svc), |claimOrder|)
    ensures WorkerResults(outcomes, snapshot, claimOrder, start, maxloops, svc)
  {
    var due := DueOutcomes(snapshot, claimOrder, start, maxloops, svc);
    assert claimOrder[..|claimOrder|] == claimOrder;
    forall k | 0 <= k < |claimOrder|
      ensures outcomes[claimOrder[k]] == WorkerOutcome(snapshot[claimOrder[k]], start + k, maxloops, svc)
    {
      assert outcomes[claimOrder[k]] == due[k];
    }
  }

  /** The workers of the pool, one per submitted row, run in `claimOrder`:
      the k-th claim succeeds exactly when fewer than `maxloops` units were
      taken before it. Each worker reads the row as it was at submission. */
  method RunWorkers(snapshot: seq<Row>, claimOrder: seq<nat>, budget: WorkBudget, svc: Services)
    returns (outcomes: map<nat, RowOutcome>)
    requires budget.Valid()
    requires Distinct(claimOrder)
    requires forall k :: 0 <= k < |claimOrder| ==> claimOrder[k] < |snapshot|
    modifies budget
    ensures budget.Valid()
    ensures budget.loopcount == Min(budget.maxloops, old(budget.loopcount) + |claimOrder|)
    ensures WorkerResults(outcomes, snapshot, claimOrder, old(budget.loopcount), budget.maxloops, svc)
  {
    ghost var start := budget.loopcount;
    ghost var due := DueOutcomes(snapshot, claimOrder, start, budget.maxloops, svc);
    outcomes := map[];
    for k := 0 to |claimOrder|
      invariant budget.Valid()
      invariant budget.loopcount == Min(budget.maxloops, start + k)
      invariant RecordedUpTo(outcomes, claimOrder, due, k)
    {
      var index := claimOrder[k];
      ghost var count := budget.loopcount;
      var outcome := ProcessRow(snapshot[index], budget, svc);
      ClaimOutcome(snapshot, claimOrder, start, budget.maxloops, svc, k, count, outcome);
      RecordNext(outcomes, claimOrder, due, k);
      outcomes := outcomes[index := outcome];
    }
    AllResults(outcomes, snapshot, claimOrder, start, budget.maxloops, svc);
  }

  /** What consuming a worker's result raises. */
  datatype RowError =
    | NoneNotIterable        // unpacking the `None` of a spent budget
    | UnboundMetaDescription // re-raised from the tag-page branch

  /** How the run ends: every result applied (the table is then written
      back), or the first failing result in completion order raised, with
      the index of its row (nothing is written back). */
  datatype RunStatus = Finished | Aborted(error: RowError, index: nat)

  /** The row after one result is applied: a successful result writes the
      three generated cells and sets `processed`. */
  function AppliedRow(row: Row, outcome: RowOutcome): Row
  {
    if outcome.Completed? && outcome.success then WithFields(row, outcome.fields).(processed := true)
    else row
  }

  /** The table after the results of `order` are applied one after another. */
  function ApplyAll(rows: seq<Row>, order: seq<nat>, outcomes: map<nat, RowOutcome>): (r: seq<Row>)
    requires forall k :: 0 <= k < |order| ==> order[k] < |rows| && order[k] in outcomes
    ensures |r| == |rows|
  {
    if order == [] then rows
    else
      var prior := ApplyAll(rows, order[..|order| - 1], outcomes);
      var last := order[|order| - 1];
      prior[last := AppliedRow(prior[last], outcomes[last])]
  }

  /** How many results, in completion order, are consumed before the first
      one that raises. */
  function Consumed(order: seq<nat>, outcomes: map<nat, RowOutcome>): (n: nat)
    requires forall k :: 0 <= k < |order| ==> order[k] in outcomes
    ensures n <= |order|
    ensures forall k :: 0 <= k < n ==> outcomes[order[k]].Completed?
    ensures n < |order| ==> !outcomes[order[n]].Completed?
  {
    if order == [] then 0
    else if outcomes[order[0]].Completed? then 1 + Consumed(order[1..], outcomes)
    else 0
  }

  function ErrorOf(outcome: RowOutcome): RowError
  {
    if outcome.NoBudget? then NoneNotIterable else UnboundMetaDescription
  }

  function StatusOf(order: seq<nat>, outcomes: map<nat, RowOutcome>): RunStatus
    requires forall k :: 0 <= k < |order| ==> order[k] in outcomes
  {
    var n := Consumed(order, outcomes);
    if n == |order| then Finished else Aborted(ErrorOf(outcomes[order[n]]), order[n])
  }

  /** The result loop of `main`: results are taken in completion order and
      each successful one is written to its own row; the first result that
      raises ends the loop. */
  method ApplyResults(df: array<Row>, order: seq<nat>, outcomes: map<nat, RowOutcome>) returns (status: RunStatus)
    requires forall k :: 0 <= k < |order| ==> order[k] < df.Length && order[k] in outcomes
    modifies df
    ensures status == StatusOf(order, outcomes)
    ensures df[..] == ApplyAll(old(df[..]), order[..Consumed(order, outcomes)], outcomes)
  {
    for k := 0 to |order|
      invariant forall j :: 0 <= j < k ==> outcomes[order[j]].Completed?
      invariant df[..] == ApplyAll(old(df[..]), order[..k], outcomes)
    {
      var index := order[k];
      var outcome := outcomes[index];
      if !outcome.Completed? {
        return Aborted(ErrorOf(outcome), index);
      }
      var (result, success) := (outcome.fields, outcome.success);
      assert order[..k + 1][..k] == order[..k];
      if success {
        df[index] := df[index].(seoTitle := result.seoTitle);
        df[index] := df[index].(metaDescription := result.metaDescription);
        df[index] := df[index].(title := result.title);
        df[index] := df[index].(processed := true);
      }
    }
    assert order[..|order|] == order;
    return Finished;
  }

  /** Applying results to distinct rows: each row of the table depends only
      on its own result, whatever the order. */
  lemma {:induction false} ApplyAllAt(rows: seq<Row>, order: seq<nat>, outcomes: map<nat, RowOutcome>, i: nat)
    requires Distinct(order)
    requires forall k :: 0 <= k < |order| ==> order[k] < |rows| && order[k] in outcomes
    requires i < |rows|
    ensures ApplyAll(rows, order, outcomes)[i] == if i in order then AppliedRow(rows[i], outcomes[i]) else rows[i]
  {
    if order != [] {
      var init := order[..|order| - 1];
      assert Distinct(init);
      ApplyAllAt(rows, init, outcomes, i);
      assert i in order <==> i in init || i == order[|order| - 1];
    }
  }

  /** The table a run leaves does not depend on the completion order. */
  lemma CompletionOrderIrrelevant(rows: seq<Row>, order1: seq<nat>, order2: seq<nat>, outcomes: map<nat, RowOutcome>)
    requires Distinct(order1) && IsOrdering(order2, order1)
    requires forall k :: 0 <= k < |order1| ==> order1[k] < |rows| && order1[k] in outcomes
    ensures forall k :: 0 <= k < |order2| ==> order2[k] < |rows| && order2[k] in outcomes
    ensures ApplyAll(rows, order1, outcomes) == ApplyAll(rows, order2, outcomes)
  {
    assert forall k :: 0 <= k < |order2| ==> order2[k] in order1;
    forall i | 0 <= i < |rows|
      ensures ApplyAll(rows, order1, outcomes)[i] == ApplyAll(rows, order2, outcomes)[i]
    {
      ApplyAllAt(rows, order1, outcomes, i);
      ApplyAllAt(rows, order2, outcomes, i);
    }
  }

  /** Outside `indices` the table is as it was. */
  predicate UnchangedOutside(before: seq<Row>, after: seq<Row>, indices: seq<nat>)
  {
    |after| == |before| && forall i :: 0 <= i < |before| && i !in indices ==> after[i] == before[i]
  }

  /** Every row keeps its url and id, and a set `processed` flag stays set. */
  predicate KeepsIdentity(before: seq<Row>, after: seq<Row>)
    requires |after| == |before|
  {
    forall i :: 0 <= i < |before| ==>
      after[i].url == before[i].url && after[i].id == before[i].id && (before[i].processed ==> after[i].processed)
  }

  /** None of the rows at `indices` is a tag page. */
  predicate NoTagRows(rows: seq<Row>, indices: seq<nat>)
  {
    forall i :: 0 <= i < |rows| && i in indices ==> !IsTagUrl(rows[i].url)
  }

  /** Every row at `indices` is a non-tag row now holding what the
      fetch-and-generate branch gave for its url, and is marked processed. */
  predicate AllFetched(before: seq<Row>, after: seq<Row>, indices: seq<nat>, svc: Services)
    requires |after| == |before|
  {
    NoTagRows(before, indices) &&
    forall i :: 0 <= i < |before| && i in indices ==>
      after[i] == WithFields(before[i], FetchFields(before[i].url, svc)).(processed := true)
  }

  /** Every row either is as it was, or is a non-tag row now holding what
      the fetch-and-generate branch gave for its url, marked processed. */
  predicate FetchedOrKept(before: seq<Row>, after: seq<Row>, svc: Services)
    requires |after| == |before|
  {
    forall i :: 0 <= i < |before| ==>
      after[i] == before[i]
      || (!IsTagUrl(before[i].url) && after[i] == WithFields(before[i], FetchFields(before[i].url, svc)).(processed := true))
  }

  /** `main`: submit the pending rows, run the workers, apply their results.
      The table is written back only when the status is `Finished`. */
  method Run(df: array<Row>, budget: WorkBudget, svc: Services, claimOrder: seq<nat>, completionOrder: seq<nat>)
    returns (status: RunStatus)
    requires budget.Valid()
    requires IsOrdering(claimOrder, Submitted(df[..], budget.maxloops))
    requires IsOrdering(completionOrder, Submitted(df[..], budget.maxloops))
    modifies df, budget
    ensures budget.Valid()
    ensures budget.loopcount == Min(budget.maxloops, old(budget.loopcount) + |Submitted(old(df[..]), budget.maxloops)|)
    ensures UnchangedOutside(old(df[..]), df[..], Submitted(old(df[..]), budget.maxloops))
    ensures KeepsIdentity(old(df[..]), df[..])
    ensures status.Finished? ==> AllFetched(old(df[..]), df[..], Submitted(old(df[..]), budget.maxloops), svc)
    ensures FetchedOrKept(old(df[..]), df[..], svc)
    ensures status.Aborted? ==> status.index < df.Length && df[status.index] == old(df[status.index])
    ensures old(budget.loopcount) == 0 ==> !(status.Aborted? && status.error == NoneNotIterable)
    ensures old(budget.loopcount) == 0 && NoTagRows(old(df[..]), Submitted(old(df[..]), budget.maxloops)) ==> status == Finished
  {
    ghost var before := df[..];
    ghost var start := budget.loopcount;
    var submitted := SubmitRows(df, budget.maxloops);
    var snapshot := df[..];
    OrderBounds(claimOrder, before, budget.maxloops);
    var outcomes := RunWorkers(snapshot, claimOrder, budget, svc);
    ResultsCover(outcomes, before, claimOrder, completionOrder, start, budget.maxloops, svc);
    status := ApplyResults(df, completionOrder, outcomes);
    assert snapshot == before;
    RunFrame(before, df[..], completionOrder, outcomes, budget.maxloops);
    SameRows(claimOrder, completionOrder, Submitted(before, budget.maxloops));
    RunPartial(before, df[..], claimOrder, completionOrder, outcomes, start, budget.maxloops, svc);
    if status.Aborted? {
      AbortedRowKept(before, df[..], completionOrder, outcomes, Consumed(completionOrder, outcomes));
    }
    if status.Finished? {
      assert completionOrder[..|completionOrder|] == completionOrder;
      RunFinished(before, df[..], claimOrder, completionOrder, outcomes, start, budget.maxloops, svc);
    }
    if start == 0 {
      RunWithinBudget(before, claimOrder, completionOrder, outcomes, budget.maxloops, svc);
    }
  }

  /** An ordering of the submitted rows lists table indices, each once. */
  lemma OrderBounds(order: seq<nat>, rows: seq<Row>, maxloops: nat)
    requires IsOrdering(order, Submitted(rows, maxloops))
    ensures Distinct(order)
    ensures forall k :: 0 <= k < |order| ==> order[k] < |rows|
  {
    SubmittedIndices(rows, maxloops);
    assert forall k :: 0 <= k < |order| ==> order[k] in order;
  }

  /** Every row in the completion order has a result. */
  lemma ResultsCover(outcomes: map<nat, RowOutcome>, rows: seq<Row>, claimOrder: seq<nat>, completionOrder: seq<nat>,
                     start: nat, maxloops: nat, svc: Services)
    requires IsOrdering(claimOrder, Submitted(rows, maxloops))
    requires IsOrdering(completionOrder, Submitted(rows, maxloops))
    requires WorkerResults(outcomes, rows, claimOrder, start, maxloops, svc)
    ensures forall k :: 0 <= k < |completionOrder| ==> completionOrder[k] < |rows| && completionOrder[k] in outcomes
  {
    forall k | 0 <= k < |completionOrder|
      ensures completionOrder[k] < |rows| && completionOrder[k] in outcomes
    {
      var x := completionOrder[k];
      assert x in completionOrder && x in claimOrder;
      var j :| 0 <= j < |claimOrder| && claimOrder[j] == x;
    }
  }

  /** A run changes only submitted rows, and keeps every url, id and set
      `processed` flag, however far the result loop got. */
  lemma RunFrame(before: seq<Row>, after: seq<Row>, completionOrder: seq<nat>, outcomes: map<nat, RowOutcome>, maxloops: nat)
    requires IsOrdering(completionOrder, Submitted(before, maxloops))
    requires forall k :: 0 <= k < |completionOrder| ==> completionOrder[k] < |before| && completionOrder[k] in outcomes
    requires after == ApplyAll(before, completionOrder[..Consumed(completionOrder, outcomes)], outcomes)
    ensures UnchangedOutside(before, after, Submitted(before, maxloops))
    ensures KeepsIdentity(before, after)
  {
    var applied := completionOrder[..Consumed(completionOrder, outcomes)];
    assert forall x :: x in applied ==> x in completionOrder;
    RunEffect(before, after, applied, outcomes);
  }

  /** When every result was consumed, each submitted row came from the
      fetch-and-generate branch and holds what that branch fetched. */
  lemma RunFinished(before: seq<Row>, after: seq<Row>, claimOrder: seq<nat>, completionOrder: seq<nat>,
                    outcomes: map<nat, RowOutcome>, start: nat, maxloops: nat, svc: Services)
    requires IsOrdering(claimOrder, Submitted(before, maxloops))
    requires IsOrdering(completionOrder, Submitted(before, maxloops))
    requires WorkerResults(outcomes, before, claimOrder, start, maxloops, svc)
    requires forall k :: 0 <= k < |completionOrder| ==> completionOrder[k] < |before| && completionOrder[k] in outcomes
    requires Consumed(completionOrder, outcomes) == |completionOrder|
    requires after == ApplyAll(before, completionOrder, outcomes)
    ensures AllFetched(before, after, Submitted(before, maxloops), svc)
  {
    RunEffect(before, after, completionOrder, outcomes);
    forall i | 0 <= i < |before| && i in Submitted(before, maxloops)
      ensures !IsTagUrl(before[i].url) && after[i] == WithFields(before[i], FetchFields(before[i].url, svc)).(processed := true)
    {
      assert i in completionOrder;
      var k :| 0 <= k < |completionOrder| && completionOrder[k] == i;
      ConsumedIsFetched(outcomes, before, claimOrder, start, maxloops, svc, i);
    }
  }

  /** However far the result loop got, each row is either untouched or a
      non-tag row holding its fetched fields, marked processed: the
      consumed results all come from the fetch-and-generate branch. */
  lemma RunPartial(before: seq<Row>, after: seq<Row>, claimOrder: seq<nat>, completionOrder: seq<nat>,
                   outcomes: map<nat, RowOutcome>, start: nat, maxloops: nat, svc: Services)
    requires Distinct(completionOrder) && forall x :: x in completionOrder ==> x in claimOrder
    requires WorkerResults(outcomes, before, claimOrder, start, maxloops, svc)
    requires forall k :: 0 <= k < |completionOrder| ==> completionOrder[k] < |before| && completionOrder[k] in outcomes
    requires after == ApplyAll(before, completionOrder[..Consumed(completionOrder, outcomes)], outcomes)
    ensures FetchedOrKept(before, after, svc)
  {
    var n := Consumed(completionOrder, outcomes);
    var applied := completionOrder[..n];
    PrefixDistinct(completionOrder, n);
    RunEffect(before, after, applied, outcomes);
    forall i | 0 <= i < |before| && i in applied
      ensures !IsTagUrl(before[i].url) && after[i] == WithFields(before[i], FetchFields(before[i].url, svc)).(processed := true)
    {
      var k :| 0 <= k < n && applied[k] == i;
      assert completionOrder[k] == i;
      assert i in completionOrder;
      ConsumedIsFetched(outcomes, before, claimOrder, start, maxloops, svc, i);
    }
  }

  /** Two orderings of the same rows list the same rows. */
  lemma SameRows(order1: seq<nat>, order2: seq<nat>, items: seq<nat>)
    requires IsOrdering(order1, items) && IsOrdering(order2, items)
    ensures forall x :: x in order2 ==> x in order1
  {
  }

  /** A result that did not raise is the fetch-and-generate branch's. */
  lemma ConsumedIsFetched(outcomes: map<nat, RowOutcome>, before: seq<Row>, claimOrder: seq<nat>,
                          start: nat, maxloops: nat, svc: Services, i: nat)
    requires WorkerResults(outcomes, before, claimOrder, start, maxloops, svc)
    requires i in claimOrder && outcomes[i].Completed?
    ensures i < |before| && !IsTagUrl(before[i].url)
    ensures outcomes[i] == Completed(FetchFields(before[i].url, svc), true)
  {
    var j :| 0 <= j < |claimOrder| && claimOrder[j] == i;
    BranchOutcomes(before[i], svc);
  }

  /** A prefix of a list of distinct elements is distinct and does not hold
      the element after it. */
  lemma PrefixDistinct(order: seq<nat>, n: nat)
    requires Distinct(order) && n <= |order|
    ensures Distinct(order[..n])
    ensures n < |order| ==> order[n] !in order[..n]
  {
  }

  /** The row whose result raised is left as it was. */
  lemma AbortedRowKept(before: seq<Row>, after: seq<Row>, order: seq<nat>, outcomes: map<nat, RowOutcome>, n: nat)
    requires Distinct(order) && n < |order|
    requires forall k :: 0 <= k < |order| ==> order[k] < |before| && order[k] in outcomes
    requires after == ApplyAll(before, order[..n], outcomes)
    ensures order[n] < |after| && after[order[n]] == before[order[n]]
  {
    PrefixDistinct(order, n);
    ApplyAllAt(before, order[..n], outcomes, order[n]);
  }

  /** A run that starts with the whole budget never finds it spent, and
      ends `Finished` unless some submitted row is a tag page. */
  lemma RunWithinBudget(before: seq<Row>, claimOrder: seq<nat>, completionOrder: seq<nat>,
                        outcomes: map<nat, RowOutcome>, maxloops: nat, svc: Services)
    requires IsOrdering(claimOrder, Submitted(before, maxloops))
    requires IsOrdering(completionOrder, Submitted(before, maxloops))
    requires WorkerResults(outcomes, before, claimOrder, 0, maxloops, svc)
    requires forall k :: 0 <= k < |completionOrder| ==> completionOrder[k] < |before| && completionOrder[k] in outcomes
    ensures var status := StatusOf(completionOrder, outcomes);
      !(status.Aborted? && status.error == NoneNotIterable)
    ensures NoTagRows(before, Submitted(before, maxloops)) ==> StatusOf(completionOrder, outcomes) == Finished
  {
    SubmittedIndices(before, maxloops);
    WithinBudget(before, claimOrder, outcomes, maxloops, svc);
    var n := Consumed(completionOrder, outcomes);
    if n < |completionOrder| {
      var x := completionOrder[n];
      assert x in completionOrder && x in claimOrder;
      var j :| 0 <= j < |claimOrder| && claimOrder[j] == x;
      BranchOutcomes(before[x], svc);
    }
  }

  /** Applying the results of `applied`, distinct rows each once, changes
      only those rows, keeps urls, ids and set `processed` flags. */
  lemma RunEffect(before: seq<Row>, after: seq<Row>, applied: seq<nat>, outcomes: map<nat, RowOutcome>)
    requires Distinct(applied)
    requires forall k :: 0 <= k < |applied| ==> applied[k] < |before| && applied[k] in outcomes
    requires after == ApplyAll(before, applied, outcomes)
    ensures forall i :: 0 <= i < |after| ==> after[i] == if i in applied then AppliedRow(before[i], outcomes[i]) else before[i]
    ensures forall i :: 0 <= i < |after| ==>
      after[i].url == before[i].url && after[i].id == before[i].id && (before[i].processed ==> after[i].processed)
  {
    forall i | 0 <= i < |after|
      ensures after[i] == if i in applied then AppliedRow(before[i], outcomes[i]) else before[i]
    {
      ApplyAllAt(before, applied, outcomes, i);
    }
  }

  /** With the budget untouched at the start and at most `maxloops` workers,
      no worker finds the budget spent. */
  lemma WithinBudget(snapshot: seq<Row>, claimOrder: seq<nat>, outcomes: map<nat, RowOutcome>, maxloops: nat, svc: Services)
    requires |claimOrder| <= maxloops
    requires WorkerResults(outcomes, snapshot, claimOrder, 0, maxloops, svc)
    ensures forall k :: 0 <= k < |claimOrder| ==> outcomes[claimOrder[k]] == Branch(snapshot[claimOrder[k]], svc)
  {
  }

  /** After a run that finished with no more than `maxloops` rows pending,
      no row is pending: the next run submits nothing and calls no generator. */
  lemma SecondRunIdle(before: seq<Row>, after: seq<Row>, maxloops: nat)
    requires |after| == |before| && |Pending(before)| <= maxloops
    requires forall i :: 0 <= i < |before| && before[i].processed ==> after[i].processed
    requires forall i :: i in Submitted(before, maxloops) ==> i < |after| && after[i].processed
    ensures Pending(after) == []
    ensures Submitted(after, maxloops) == []
  {
    SubmittedIndices(before, maxloops);
    PendingIndices(before);
    forall i | 0 <= i < |after|
      ensures after[i].processed
    {
      if !before[i].processed {
        assert i in Submitted(before, maxloops);
      }
    }
    PendingEmptyWhenAllProcessed(after);
  }

  lemma {:induction false} PendingEmptyWhenAllProcessed(rows: seq<Row>)
    requires forall i :: 0 <= i < |rows| ==> rows[i].processed
    ensures Pending(rows) == []
  {
    if rows != [] {
      PendingEmptyWhenAllProcessed(rows[..|rows| - 1]);
    }
  }

  /** Every url the run treats as a tag page is one the repair pass skips. */
  lemma TagPagesSkippedByRepair(row: Row)
    requires IsTagUrl(row.url)
    ensures Repair.IsTagRow(row)
  {
    var i :| 0 <= i <= |row.url| && OccursAt(row.url, TagSeparator, i);
    var window := row.url[i..i + 6];
    assert row.url[i + 1..i + 5] == window[1..5];
    assert window[1..5] == Repair.TagsWord;
    assert OccursAt(row.url, Repair.TagsWord, i + 1);
  }
}
