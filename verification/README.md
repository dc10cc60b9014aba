# Argentine account-move rules, modelled in Dafny

This project models the Argentine localisation's extension of the accounting
framework's journal entry (`account.move`, file
`l10n_ar_ux/models/account_move.py`). Its centre is the backward-compatible
document-number parser. An Argentine fiscal document number is normally
written `PPPP-NNNNNNNN`, a point of sale and an invoice number. When the base
localisation's parser fails, the legacy rules take over:

- document types 33, 99, 331 and 332 have point of sale 0, and the whole string is the invoice number;
- otherwise, a hyphenated number is split on `-`: the last segment is the invoice number and the one before it is the point of sale;
- otherwise, a 12-character number is cut 4 + 8;
- each part is stripped of non-digits and must not end up empty, or a validation error is raised.

Three smaller rules of the same class are modelled as well:
- the invoice report template an Argentine company prints;
- the stored currency rate that a credit or debit note copies from the entry it reverses;
- how posting splits a batch: foreign-currency Argentine invoices are posted one by one at their stored rate, and the rest together.

Modules:

- `Results` (`results.dfy`): `Option` (the source's `False`) and `Result`.
- `Digits` (`digits.dfy`): removal of non-digits, Python's `int()` on a digit
  string, and its inverse, zero-padded decimal rendering. The two are a
  bijection between width-w digit strings and the naturals below 10^w.
- `Segments` (`segments.dfy`): Python's `str.split('-')` and its inverse `join`.
- `DocumentNumber` (`document_number.dfy`): the parser itself, one lemma per
  branch, round trips between numbers and their `P-N` / 12-digit renderings,
  and worked examples.
- `Recordsets` (`recordsets.dfy`): the framework's `filtered` and recordset
  difference, on ordered sequences of ids.
- `AccountMove` (`account_move.dfy`): report name, rate copy rule, posting plan.

The database is a map from ids to entries. The rate is an opaque value that
the rules only copy. The base parser and the base report-name rule are
function parameters.

The parser's hyphen branch pops the last two segments of the split. So the
point of sale is the second-to-last segment, not everything before the last
hyphen: `1-2-3` gives point of sale 2 and invoice number 3. The model
follows the code.

## Model

| member | source | states |
|---|---|---|
| DocumentNumber.GetDocumentNumberParts | l10n_ar_ux/models/account_move.py:52-55 | When the base parser succeeds its result is returned unchanged; only when it raises does the legacy parser decide the result. |
| DocumentNumber.LegacyParts | l10n_ar_ux/models/account_move.py:72-79 | Every failure is the single validation error carrying the type code and the number; for number-only document types a success has point of sale 0. |
| DocumentNumber.NumberOnlyBranch | l10n_ar_ux/models/account_move.py:57-62 | For codes 33, 99, 331, 332 the parser succeeds exactly when the string has a digit, and then yields point of sale 0 and the integer of all digits of the string, hyphens or not. |
| DocumentNumber.HyphenBranch | l10n_ar_ux/models/account_move.py:63-66 | For other codes, any `lead + pos + "-" + inv` (lead empty or ending in `-`, pos and inv hyphen-free) is read from pos and inv alone: success exactly when both have a digit, with their digit values; the lead is ignored. |
| DocumentNumber.HyphenTotal | l10n_ar_ux/models/account_move.py:63-66 | For other codes, every number containing a hyphen is read from its last two `-`-separated segments, whatever comes before them. |
| DocumentNumber.FixedWidthBranch | l10n_ar_ux/models/account_move.py:67-69 | For other codes, a hyphen-free 12-character string is read from its first 4 and last 8 characters; success exactly when both have a digit, and then point of sale < 10^4 and invoice number < 10^8. |
| DocumentNumber.OtherLengthFails | l10n_ar_ux/models/account_move.py:67-75 | For other codes, a hyphen-free string whose length is not 12 always raises the validation error. |
| DocumentNumber.HyphenatedRoundTrip | l10n_ar_ux/models/account_move.py:63-79 | Any point of sale and invoice number, zero-padded to any widths and joined by `-`, parse back to exactly those two numbers. |
| DocumentNumber.HyphenatedCanonical | l10n_ar_ux/models/account_move.py:63-79 | Every `P-N` with non-empty all-digit fields parses, and padding the parts to the fields' widths reproduces the string. |
| DocumentNumber.FixedWidthRoundTrip | l10n_ar_ux/models/account_move.py:67-79 | A point of sale below 10^4 padded to 4 digits followed by an invoice number below 10^8 padded to 8 digits parses back to both numbers. |
| DocumentNumber.FixedWidthCanonical | l10n_ar_ux/models/account_move.py:67-79 | Every all-digit 12-character string parses, and re-rendering the parts as 4 + 8 digits reproduces it. |
| DocumentNumber.FixedWidthDigits | l10n_ar_ux/models/account_move.py:67-79 | An all-digit 12-character string yields the values of its first four and last eight digits. |
| DocumentNumber.NumberOnlyRoundTrip | l10n_ar_ux/models/account_move.py:57-79 | For number-only types any padded rendering of an invoice number parses back to it with point of sale 0. |
| DocumentNumber.ExampleHyphenated | l10n_ar_ux/models/account_move.py:63-79 | `0001-00000123` gives point of sale 1 and invoice number 123. |
| DocumentNumber.ExampleFixedWidth | l10n_ar_ux/models/account_move.py:67-79 | `000100000123` gives point of sale 1 and invoice number 123. |
| DocumentNumber.ExampleThreeSegments | l10n_ar_ux/models/account_move.py:63-66 | `1-2-3` gives point of sale 2 and invoice number 3. |
| DocumentNumber.ExampleShortFails | l10n_ar_ux/models/account_move.py:67-75 | `ABC` raises the validation error. |
| DocumentNumber.ExampleEmptyPartFails | l10n_ar_ux/models/account_move.py:63-75 | `5-` and `-` raise the validation error (an empty part). |
| DocumentNumber.ExampleLettersFail | l10n_ar_ux/models/account_move.py:67-75 | A 12-letter string raises the validation error (no digit). |
| Digits.StripNonDigits | l10n_ar_ux/models/account_move.py:70-71 | Stripping keeps only digits, drawn from the input, never lengthens it, is empty exactly when the input has no digit, and leaves an all-digit string as it is. |
| Digits.StripAppend | l10n_ar_ux/models/account_move.py:70-71 | Stripping a concatenation is the concatenation of the stripped parts. |
| Digits.Value | l10n_ar_ux/models/account_move.py:77-78 | `int()` of a w-digit string is a natural below 10^w. |
| Digits.ValueOfPadded | l10n_ar_ux/models/account_move.py:77-78 | Reading a zero-padded rendering of n gives n. |
| Digits.PaddedOfValue | l10n_ar_ux/models/account_move.py:77-78 | Every non-empty digit string is the padded rendering of its value at its own width. |
| Digits.ValueLeadingZeros | l10n_ar_ux/models/account_move.py:77-78 | Leading zeros do not change the integer read. |
| Digits.ValueInjective | l10n_ar_ux/models/account_move.py:77-78 | Two digit strings of equal width and equal value are equal. |
| Segments.Split | l10n_ar_ux/models/account_move.py:64 | `split('-')` yields at least one segment and no segment contains the separator. |
| Segments.JoinOfSplit | l10n_ar_ux/models/account_move.py:64 | Joining the segments with the separator gives the string back. |
| Segments.SplitOfJoin | l10n_ar_ux/models/account_move.py:64 | Splitting the join of separator-free segments gives the segments back. |
| Segments.SplitCount | l10n_ar_ux/models/account_move.py:64 | There is one segment more than there are separators. |
| Segments.SplitAppend | l10n_ar_ux/models/account_move.py:64 | Splitting `a + "-" + b` is splitting a and b separately. |
| Segments.LastTwoSegments | l10n_ar_ux/models/account_move.py:64-66 | A string with a hyphen is its leading text, the second-to-last segment, a hyphen and the last segment, the leading text being empty or ending in a hyphen. |
| Segments.SplitEndsWith | l10n_ar_ux/models/account_move.py:64-66 | Whatever precedes them, the last two segments of `lead + x + "-" + y` are x and y. |
| AccountMove.InvoiceReportName | l10n_ar_ux/models/account_move.py:88-96 | An Argentine company prints `l10n_ar.report_invoice_document` for `account.report_invoice_document` and any other template unchanged; other companies get the base rule. |
| AccountMove.ArgentineReportNameIdempotent | l10n_ar_ux/models/account_move.py:91-95 | For an Argentine company the substitution applied twice is the substitution applied once. |
| AccountMove.RateInheritors | l10n_ar_ux/models/account_move.py:26-30 | The records selected are exactly the batch's foreign-currency Argentine invoices that reverse a stored entry in their own currency. |
| AccountMove.ClearEntryRates | l10n_ar_ux/models/account_move.py:31 | Plain journal entries of the batch lose their rate; every other field and every other record stays as it was. |
| AccountMove.ComputeArCurrencyRate | l10n_ar_ux/models/account_move.py:26-33 | Only the rate field of batch records changes: plain journal entries get an empty rate; foreign-currency Argentine invoices reversing a same-currency entry take that entry's rate; all other records are untouched. |
| AccountMove.CopyReversedRates | l10n_ar_ux/models/account_move.py:32-33 | Copying in order changes only the copied records' rates, and a record whose reversed entry is not itself copied gets that entry's rate. |
| AccountMove.CopyReversedRatesAppend | l10n_ar_ux/models/account_move.py:32-33 | The loop over `a + b` is the loop over `a` followed by the loop over `b` in the store it leaves. |
| AccountMove.CopyReversedRatesInOrder | l10n_ar_ux/models/account_move.py:32-33 | The k-th record, when not repeated later, ends with the rate its reversed entry holds after the copies for the records before it, so in a chain inside one batch a rate copied earlier is passed on. |
| AccountMove.ComputeArCurrencyRateIdempotent | l10n_ar_ux/models/account_move.py:26-33 | When no inheritor reverses an entry of the same batch, recomputing the rates a second time changes nothing. |
| AccountMove.PostPartition | l10n_ar_ux/models/account_move.py:111-129 | Posting a batch posts every record exactly as often as it occurs: foreign-currency Argentine invoices each on their own, every other record in the final group. |
| AccountMove.PostAtOwnRate | l10n_ar_ux/models/account_move.py:119-128 | Each record posted on its own is posted at its own stored rate, right after being recomputed at that rate. |
| AccountMove.ForeignCurrencyArInvoices | l10n_ar_ux/models/account_move.py:111-113 | The records posted alone are exactly the batch's invoices of Argentine companies in a currency other than the company's. |
| AccountMove.PostPlan | l10n_ar_ux/models/account_move.py:109-130 | Posting ends with the only group post, of the batch minus the records posted alone, and every base post gets the caller's `soft`. |
| AccountMove.IndividualSteps | l10n_ar_ux/models/account_move.py:119-128 | The per-record calls are, for the k-th record, a recompute and then a post, both at its stored rate. |
| Recordsets.Filtered | l10n_ar_ux/models/account_move.py:111-113 | `filtered` keeps exactly the records satisfying the predicate, each as often as in the input; a one-record recordset is kept or dropped whole. |
| Recordsets.FilteredAppend | l10n_ar_ux/models/account_move.py:111-113 | Filtering keeps recordset order: filtering a concatenation is filtering each side and concatenating. |
| Recordsets.Difference | l10n_ar_ux/models/account_move.py:129 | `s - t` keeps exactly the records of `s` not in `t`, each as often as in `s`. |
| Recordsets.FilteredAndDifference | l10n_ar_ux/models/account_move.py:129 | A recordset minus its filtered part is exactly the records failing the filter, and the two parts together are the whole recordset. |

## Left out

- `_compute_currency_rate` (lines 35-44): a floating-point conversion through the framework's currency service and today's date; neither exists here.
- `_check_duplicate_supplier_reference` (lines 81-86) only filters the batch and delegates to the base constraint.
- `_get_l10n_latam_documents_domain` (lines 98-107) builds a database search domain for the framework's query engine.
- The accounting effect of posting: `_onchange_currency` and the base `_post` are recorded as steps of a plan. The plan does not model the debit/credit lines they write, nor the value `_post` returns.
- The base parser (line 53) is a parameter returning `None` when it raises. Exception kinds and the informational log line are not modelled.
- The error message text: the single validation error carries only the type code and the number that the message interpolates.
- Digits are ASCII `0`-`9`. The `\d` test on line 61 also accepts other Unicode digits, but such a string has no ASCII digit and still fails at line 72, so the outcome is the same.
- Integers are unbounded. The Python runtime's limit on the number of digits `int()` converts (a different exception for very long numbers) is not modelled.
- The document number is always a string; a missing number (`False`) would raise a type error in the source.
- The comparison of a company's country with the `base.ar` record is modelled as the country's ISO code being `AR`.
- AccountMove.ComputeArCurrencyRate: the inherited rate is stated only when the reversed entry is not itself an inheritor in the same batch. In chains of reversals inside one batch the outcome depends on batch order; `AccountMove.CopyReversedRatesInOrder` states it for the copy loop, but this contract does not.
- AccountMove.PostPlan: the source reads each record's stored rate (lines 124 and 128) after the earlier records of the batch were recomputed and posted. The plan reads all rates from the store as it was before posting. That assumes `_onchange_currency` and the base `_post` leave `l10n_ar_currency_rate` alone, since that field is recomputed only when `reversed_entry_id` changes (line 22).
- `ensure_one()` in `_get_name_invoice_report` (line 90) raises on a recordset that is not a single record. `AccountMove.InvoiceReportName` takes one company, so that error is not modelled.
- `l10n_ar_wsafip_fe/wsfe_error.py` is a three-column data table with no behaviour.
