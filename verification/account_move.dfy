/** The Argentine rules layered on the framework's journal entry (`account.move`):

    - which invoice report template an Argentine company prints;
    - the stored `l10n_ar_currency_rate` of credit and debit notes, copied
      from the entry they reverse when both are in the same foreign currency,
      and cleared on plain journal entries;
    - how posting a batch of entries is split: each foreign-currency Argentine
      invoice is recomputed and posted on its own at its stored rate, and the
      remaining entries are posted together.

    The database is a map from record ids to entries; a batch (the
    framework's recordset `self`) is a sequence of ids. The rate is an opaque
    value `R`: these rules only copy it. `None` stands for the cleared field.
 */
module AccountMove {
  import opened Results
  import opened Recordsets

  datatype MoveType =
    | Entry
    | OutInvoice | OutRefund | InInvoice | InRefund
    | OutReceipt | InReceipt

  /** The framework's `is_invoice()`, which leaves receipts out by default. */
  predicate IsInvoice(t: MoveType) {
    match t
    case OutInvoice | OutRefund | InInvoice | InRefund => true
    case Entry | OutReceipt | InReceipt => false
  }

  type CurrencyId = nat

  /** The company owning an entry: its country's ISO code, if any, and its
      accounting currency. */
  datatype Company = Company(countryCode: Option<string>, currency: CurrencyId)

  /** The company's country is Argentina. */
  predicate IsArgentine(c: Company) {
    c.countryCode == Some("AR")
  }

  datatype Move<R> = Move(
    moveType: MoveType,
    company: Company,
    currency: CurrencyId,
    reversedEntry: Option<Id>,
    arCurrencyRate: Option<R>)

  type Store<R> = map<Id, Move<R>>

  predicate InStore<R>(store: Store<R>, batch: seq<Id>) {
    forall i :: 0 <= i < |batch| ==> batch[i] in store
  }

  const GenericInvoiceReport: string := "account.report_invoice_document"
  const ArgentineInvoiceReport: string := "l10n_ar.report_invoice_document"

  /** The report templates an Argentine company replaces. */
  const ArgentineReports: map<string, string> := map[GenericInvoiceReport := ArgentineInvoiceReport]

  /** The invoice report template to print. Argentine companies print the
      Argentine invoice instead of the generic one and any other template
      as asked; other companies get the base rule, `baseReportName`. */
  function InvoiceReportName(company: Company, reportId: string, baseReportName: string -> string)
    : (r: string)
    ensures IsArgentine(company) && reportId == GenericInvoiceReport ==> r == ArgentineInvoiceReport
    ensures IsArgentine(company) && reportId != GenericInvoiceReport ==> r == reportId
    ensures !IsArgentine(company) ==> r == baseReportName(reportId)
  {
    if IsArgentine(company) then
      if reportId in ArgentineReports && ArgentineReports[reportId] != "" then
        ArgentineReports[reportId]
      else reportId
    else baseReportName(reportId)
  }

  /** For an Argentine company the substitution is idempotent: the Argentine
      template is not substituted again. */
  lemma ArgentineReportNameIdempotent(company: Company, reportId: string, baseReportName: string -> string)
    requires IsArgentine(company)
    ensures var once := InvoiceReportName(company, reportId, baseReportName);
      InvoiceReportName(company, once, baseReportName) == once
  {
    assert ArgentineInvoiceReport != GenericInvoiceReport by {
      assert ArgentineInvoiceReport[0] != GenericInvoiceReport[0];
    }
  }

  /** An invoice (or credit/debit note) of an Argentine company in a
      currency other than the company's. */
  predicate IsForeignCurrencyArInvoice<R>(m: Move<R>) {
    IsInvoice(m.moveType) && IsArgentine(m.company) && m.currency != m.company.currency
  }

  /** A foreign-currency Argentine invoice reversing an entry in the same
      currency: it takes over that entry's stored rate. */
  predicate InheritsReversedRate<R>(store: Store<R>, m: Move<R>) {
    && IsForeignCurrencyArInvoice(m)
    && m.reversedEntry.Some?
    && m.reversedEntry.value in store
    && store[m.reversedEntry.value].currency == m.currency
  }

  /** The records of `batch` that take over their reversed entry's rate. */
  function RateInheritors<R>(store: Store<R>, batch: seq<Id>): (r: seq<Id>)
    ensures forall id :: id in r <==> id in batch && id in store && InheritsReversedRate(store, store[id])
  {
    Filtered(batch, id => id in store && InheritsReversedRate(store, store[id]))
  }

  /** Step one: clear the rate of every plain journal entry of the batch. */
  function ClearEntryRates<R>(store: Store<R>, batch: seq<Id>): (r: Store<R>)
    ensures r.Keys == store.Keys
    ensures forall id :: id in store ==> r[id] == store[id].(arCurrencyRate := r[id].arCurrencyRate)
    ensures forall id :: id in store && (id !in batch || store[id].moveType != Entry) ==> r[id] == store[id]
    ensures forall id :: id in store && id in batch && store[id].moveType == Entry ==> r[id].arCurrencyRate == None
  {
    map id | id in store ::
      if id in batch && store[id].moveType == Entry then store[id].(arCurrencyRate := None) else store[id]
  }

  /** Step two: each of `recs`, in order, copies the rate its reversed entry
      holds at that moment. */
  function CopyReversedRates<R>(store: Store<R>, recs: seq<Id>): (r: Store<R>)
    requires forall i :: 0 <= i < |recs| ==>
      recs[i] in store && store[recs[i]].reversedEntry.Some? && store[recs[i]].reversedEntry.value in store
    ensures r.Keys == store.Keys
    ensures forall id :: id in store ==> r[id] == store[id].(arCurrencyRate := r[id].arCurrencyRate)
    ensures forall id :: id in store && id !in recs ==> r[id] == store[id]
    ensures forall id :: id in recs && store[id].reversedEntry.value !in recs ==>
      r[id].arCurrencyRate == store[store[id].reversedEntry.value].arCurrencyRate
    decreases |recs|
  {
    if recs == [] then store
    else
      var id := recs[0];
      var next := store[id := store[id].(arCurrencyRate := store[store[id].reversedEntry.value].arCurrencyRate)];
      CopyReversedRates(next, recs[1..])
  }

  /** Copying for `a + b` is copying for `a`, then for `b` in the store that
      results. */
  lemma {:induction false} CopyReversedRatesAppend<R>(store: Store<R>, a: seq<Id>, b: seq<Id>)
    requires forall i :: 0 <= i < |a + b| ==>
      (a + b)[i] in store && store[(a + b)[i]].reversedEntry.Some? && store[(a + b)[i]].reversedEntry.value in store
    ensures forall i :: 0 <= i < |a| ==>
      a[i] in store && store[a[i]].reversedEntry.Some? && store[a[i]].reversedEntry.value in store
    ensures var mid := CopyReversedRates(store, a);
      forall i :: 0 <= i < |b| ==>
        b[i] in mid && mid[b[i]].reversedEntry.Some? && mid[b[i]].reversedEntry.value in mid
    ensures CopyReversedRates(store, a + b) == CopyReversedRates(CopyReversedRates(store, a), b)
  {
    assert forall i :: 0 <= i < |a| ==> a[i] == (a + b)[i];
    assert forall i :: 0 <= i < |b| ==> b[i] == (a + b)[|a| + i];
    if a == [] {
      assert a + b == b;
    } else {
      var id := a[0];
      var next := store[id := store[id].(arCurrencyRate := store[store[id].reversedEntry.value].arCurrencyRate)];
      assert (a + b)[0] == id && (a + b)[1..] == a[1..] + b;
      CopyReversedRatesAppend(next, a[1..], b);
    }
  }

  /** The loop's order matters: the k-th record copies the rate its reversed
      entry holds after the copies for the records before it, and keeps it
      when it is not copied again later. So in a chain where a record
      reverses another record of the same batch, the earlier one's new rate
      is passed on. */
  lemma CopyReversedRatesInOrder<R>(store: Store<R>, recs: seq<Id>, k: nat)
    requires forall i :: 0 <= i < |recs| ==>
      recs[i] in store && store[recs[i]].reversedEntry.Some? && store[recs[i]].reversedEntry.value in store
    requires k < |recs| && recs[k] !in recs[k + 1..]
    ensures var before := CopyReversedRates(store, recs[..k]);
      CopyReversedRates(store, recs)[recs[k]].arCurrencyRate
        == before[store[recs[k]].reversedEntry.value].arCurrencyRate
  {
    var id := recs[k];
    var tail := [id] + recs[k + 1..];
    assert recs == recs[..k] + tail;
    CopyReversedRatesAppend(store, recs[..k], tail);
    var before := CopyReversedRates(store, recs[..k]);
    assert tail == [id] + recs[k + 1..];
    CopyReversedRatesAppend(before, [id], recs[k + 1..]);
    assert before[id].reversedEntry == store[id].reversedEntry;
  }

  /** `_compute_l10n_ar_currency_rate` over a batch: plain journal entries
      lose their rate, rate inheritors take their reversed entry's rate, and
      nothing else changes. When the reversed entry is not itself rewritten by
      the same batch, the inherited rate is that entry's rate after the
      clearing step. */
  function ComputeArCurrencyRate<R>(store: Store<R>, batch: seq<Id>): (r: Store<R>)
    requires InStore(store, batch)
    ensures r.Keys == store.Keys
    ensures forall id :: id in store ==> r[id] == store[id].(arCurrencyRate := r[id].arCurrencyRate)
    ensures forall id :: id in store && id !in batch ==> r[id] == store[id]
    ensures forall id :: id in batch && store[id].moveType == Entry ==> r[id].arCurrencyRate == None
    ensures forall id :: id in batch && store[id].moveType != Entry && !InheritsReversedRate(store, store[id]) ==>
      r[id] == store[id]
    ensures forall id :: id in batch && InheritsReversedRate(store, store[id]) ==>
      var reversed := store[id].reversedEntry.value;
      (reversed !in batch ==> r[id].arCurrencyRate == store[reversed].arCurrencyRate) &&
      (reversed in batch && store[reversed].moveType == Entry ==> r[id].arCurrencyRate == None) &&
      (reversed in batch && store[reversed].moveType != Entry && !InheritsReversedRate(store, store[reversed]) ==>
         r[id].arCurrencyRate == store[reversed].arCurrencyRate)
  {
    var inheritors := RateInheritors(store, batch);
    var cleared := ClearEntryRates(store, batch);
    CopyReversedRates(cleared, inheritors)
  }

  /** One call made while posting a batch. */
  datatype PostStep<R> =
    | RecomputeAtRate(move: Id, forcedRate: Option<R>)   // `_onchange_currency` with `force_rate`
    | PostAtRate(move: Id, forcedRate: Option<R>, soft: bool)   // the base `_post` of one record with `force_rate`
    | PostRemaining(moves: seq<Id>, soft: bool)                // the base `_post` of the rest, no forced rate

  /** The filter of line 111 as a predicate on record ids. */
  function PostsAlone<R>(store: Store<R>): Id -> bool {
    id => id in store && IsForeignCurrencyArInvoice(store[id])
  }

  /** The records of `batch` posted one by one at their own rate. */
  function ForeignCurrencyArInvoices<R>(store: Store<R>, batch: seq<Id>): (r: seq<Id>)
    ensures forall id :: id in r <==> id in batch && id in store && IsForeignCurrencyArInvoice(store[id])
  {
    Filtered(batch, PostsAlone(store))
  }

  /** Per record of `recs`, in order: recompute at its stored rate, then post
      at that rate, passing `soft` on. */
  function IndividualSteps<R>(store: Store<R>, recs: seq<Id>, soft: bool): (steps: seq<PostStep<R>>)
    requires InStore(store, recs)
    ensures |steps| == 2 * |recs|
    ensures forall k :: 0 <= k < |steps| ==>
      var id := recs[k / 2];
      steps[k] == if k % 2 == 0 then RecomputeAtRate(id, store[id].arCurrencyRate)
                  else PostAtRate(id, store[id].arCurrencyRate, soft)
  {
    if recs == [] then []
    else
      var id := recs[0];
      var rest := IndividualSteps(store, recs[1..], soft);
      var steps := [RecomputeAtRate(id, store[id].arCurrencyRate), PostAtRate(id, store[id].arCurrencyRate, soft)] + rest;
      assert forall k :: 2 <= k < |steps| ==>
        steps[k] == rest[k - 2] && (k - 2) / 2 == k / 2 - 1 && (k - 2) % 2 == k % 2;
      steps
  }

  /** `_post(soft)`: the foreign-currency Argentine invoices one by one, each
      recomputed and then posted at its stored rate, then all other records
      of the batch together; every base `_post` gets the caller's `soft`. */
  function PostPlan<R>(store: Store<R>, batch: seq<Id>, soft: bool): (plan: seq<PostStep<R>>)
    requires InStore(store, batch)
    ensures |plan| >= 1
    ensures plan[|plan| - 1] ==
      PostRemaining(Difference(batch, ForeignCurrencyArInvoices(store, batch)), soft)
    ensures forall k :: 0 <= k < |plan| - 1 ==> !plan[k].PostRemaining?
    ensures forall k :: 0 <= k < |plan| && !plan[k].RecomputeAtRate? ==> plan[k].soft == soft
  {
    var foreign := ForeignCurrencyArInvoices(store, batch);
    var steps := IndividualSteps(store, foreign, soft);
    var plan := steps + [PostRemaining(Difference(batch, foreign), soft)];
    forall k | 0 <= k < |steps|
      ensures !plan[k].PostRemaining? && (plan[k].PostAtRate? ==> plan[k].soft == soft)
    {
      assert plan[k] == steps[k];
    }
    plan
  }

  /** The records a plan posts on their own, in plan order. */
  function PostedIndividually<R>(plan: seq<PostStep<R>>): seq<Id> {
    if plan == [] then []
    else (if plan[0].PostAtRate? then [plan[0].move] else []) + PostedIndividually(plan[1..])
  }

  /** The records a plan posts in a group. */
  function PostedTogether<R>(plan: seq<PostStep<R>>): seq<Id> {
    if plan == [] then []
    else (if plan[0].PostRemaining? then plan[0].moves else []) + PostedTogether(plan[1..])
  }

  lemma {:induction false} PostedAppend<R>(a: seq<PostStep<R>>, b: seq<PostStep<R>>)
    ensures PostedIndividually(a + b) == PostedIndividually(a) + PostedIndividually(b)
    ensures PostedTogether(a + b) == PostedTogether(a) + PostedTogether(b)
  {
    if a != [] {
      assert (a + b)[1..] == a[1..] + b;
      PostedAppend(a[1..], b);
    } else {
      assert a + b == b;
    }
  }

  /** The individual steps post exactly their records, in order, and post
      nothing in a group. */
  lemma {:induction false} PostedByIndividualSteps<R>(store: Store<R>, recs: seq<Id>, soft: bool)
    requires InStore(store, recs)
    ensures PostedIndividually(IndividualSteps(store, recs, soft)) == recs
    ensures PostedTogether(IndividualSteps(store, recs, soft)) == []
  {
    if recs != [] {
      var id := recs[0];
      var head: seq<PostStep<R>> := [RecomputeAtRate(id, store[id].arCurrencyRate), PostAtRate(id, store[id].arCurrencyRate, soft)];
      var rest := IndividualSteps(store, recs[1..], soft);
      assert IndividualSteps(store, recs, soft) == head + rest;
      PostedAppend(head, rest);
      PostedByIndividualSteps(store, recs[1..], soft);
      assert PostedIndividually(head) == [id] by {
        assert head[1..][1..] == [];
      }
      assert PostedTogether(head) == [] by {
        assert head[1..][1..] == [];
      }
      assert recs == [id] + recs[1..];
    }
  }

  /** Posting a batch posts every record exactly as often as it occurs in the
      batch: the foreign-currency Argentine invoices on their own, every other
      record in the final group. */
  lemma PostPartition<R>(store: Store<R>, batch: seq<Id>, soft: bool)
    requires InStore(store, batch)
    ensures var plan := PostPlan(store, batch, soft);
      multiset(PostedIndividually(plan)) + multiset(PostedTogether(plan)) == multiset(batch)
    ensures var plan := PostPlan(store, batch, soft);
      forall id :: id in PostedIndividually(plan) <==> id in batch && IsForeignCurrencyArInvoice(store[id])
    ensures var plan := PostPlan(store, batch, soft);
      forall id :: id in PostedTogether(plan) <==> id in batch && !IsForeignCurrencyArInvoice(store[id])
  {
    var foreign := ForeignCurrencyArInvoices(store, batch);
    var rest := Difference(batch, foreign);
    var steps := IndividualSteps(store, foreign, soft);
    var plan := PostPlan(store, batch, soft);
    assert plan == steps + [PostRemaining(rest, soft)];
    PostedAppend(steps, [PostRemaining(rest, soft)]);
    PostedByIndividualSteps(store, foreign, soft);
    assert PostedIndividually(plan) == foreign;
    assert PostedTogether(plan) == rest;
    FilteredAndDifference(batch, PostsAlone(store));
  }

  /** Every record posted on its own is posted at its own stored rate, right
      after being recomputed at that same rate. */
  lemma PostAtOwnRate<R>(store: Store<R>, batch: seq<Id>, soft: bool)
    requires InStore(store, batch)
    ensures var plan := PostPlan(store, batch, soft);
      forall k :: 0 <= k < |plan| && plan[k].PostAtRate? ==>
        && plan[k].move in store
        && plan[k].forcedRate == store[plan[k].move].arCurrencyRate
        && k >= 1
        && plan[k - 1] == RecomputeAtRate(plan[k].move, plan[k].forcedRate)
  {
    var foreign := ForeignCurrencyArInvoices(store, batch);
    var steps := IndividualSteps(store, foreign, soft);
    var plan := PostPlan(store, batch, soft);
    assert plan == steps + [PostRemaining(Difference(batch, foreign), soft)];
    forall k | 0 <= k < |plan| && plan[k].PostAtRate?
      ensures plan[k].move in store
      ensures plan[k].forcedRate == store[plan[k].move].arCurrencyRate
      ensures k >= 1 && plan[k - 1] == RecomputeAtRate(plan[k].move, plan[k].forcedRate)
    {
      assert plan[|steps|].PostRemaining?;
      assert k < |steps| && plan[k] == steps[k];
      IndividualPostFollowsRecompute(store, foreign, soft, k);
      assert plan[k - 1] == steps[k - 1];
    }
  }

  /** In the individual steps, a post is preceded by the recompute of the
      same record at the same rate. */
  lemma IndividualPostFollowsRecompute<R>(store: Store<R>, recs: seq<Id>, soft: bool, k: nat)
    requires InStore(store, recs)
    requires k < |IndividualSteps(store, recs, soft)| && IndividualSteps(store, recs, soft)[k].PostAtRate?
    ensures var steps := IndividualSteps(store, recs, soft);
      && steps[k].move in store
      && steps[k].forcedRate == store[steps[k].move].arCurrencyRate
      && k >= 1
      && steps[k - 1] == RecomputeAtRate(steps[k].move, steps[k].forcedRate)
  {
    assert k % 2 == 1;
    assert (k - 1) % 2 == 0 && (k - 1) / 2 == k / 2;
  }

  /** Recomputing again changes nothing, provided no rate inheritor of the
      batch reverses an entry of the same batch. */
  lemma ComputeArCurrencyRateIdempotent<R>(store: Store<R>, batch: seq<Id>)
    requires InStore(store, batch)
    requires forall id :: id in batch && InheritsReversedRate(store, store[id]) ==>
      store[id].reversedEntry.value !in batch
    ensures var once := ComputeArCurrencyRate(store, batch);
      ComputeArCurrencyRate(once, batch) == once
  {
    var once := ComputeArCurrencyRate(store, batch);
    var twice := ComputeArCurrencyRate(once, batch);
    forall id | id in store ensures twice[id] == once[id] {
      if id in batch {
        assert InheritsReversedRate(once, once[id]) == InheritsReversedRate(store, store[id]);
      }
    }
  }
}
