/** The backward-compatible document-number parser of the Argentine
    localisation (`AccountMove._l10n_ar_get_document_number_parts`).

    An Argentine fiscal document number is normally written `PPPP-NNNNNNNN`:
    a point of sale, a hyphen, and an invoice number. The parser first asks
    the base localisation's parser; only when that one fails does it fall
    back to the legacy rules modelled by `LegacyParts`:

    - for the document types 33, 99, 331 and 332 the point of sale is 0 and
      the whole string is the invoice number;
    - otherwise, with a hyphen, the last hyphen-separated segment is the
      invoice number and the one before it the point of sale;
    - otherwise, a string of exactly 12 characters is split 4 + 8;
    - anything else fails.

    Each part then loses its non-digits and must not be empty, or the parser
    raises its validation error; both parts are read as decimal integers.

    The worked examples at the end fix their literals directly, except
    `ExampleHyphenated` and `ExampleFixedWidth`: stated on a literal, their
    goal makes the verifier unfold the parser over every character, which
    exceeds its resource limit, so those two take the number as a parameter
    pinned by a precondition.
 */
module DocumentNumber {
  import opened Results
  import opened Digits
  import opened Segments

  datatype Parts = Parts(pointOfSale: nat, invoiceNumber: nat)

  /** The validation error; its message names the type code and the number. */
  datatype ParseError = MissingParts(documentTypeCode: string, documentNumber: string)

  /** Document types whose number carries no point of sale. */
  predicate IsNumberOnlyType(code: string) {
    code in ["33", "99", "331", "332"]
  }

  /** The two parts before digit stripping; `None` is the source's `False`. */
  datatype RawParts = RawParts(pointOfSale: Option<string>, invoiceNumber: Option<string>)

  /** The branch selection, before any digit stripping. */
  function SelectRawParts(number: string, code: string): RawParts {
    if IsNumberOnlyType(code) then
      RawParts(Some("0"), if HasDigit(number) then Some(number) else None)
    else if '-' in number then
      var segments := Split(number, '-');
      assert |segments| >= 2 by {
        assert multiset(number)['-'] > 0;
        SplitCount(number, '-');
      }
      RawParts(Some(segments[|segments| - 2]), Some(segments[|segments| - 1]))
    else if '-' !in number && |number| == 12 then
      RawParts(Some(number[..4]), Some(number[|number| - 8..]))
    else
      RawParts(None, None)
  }

  /** Digit stripping of an optional part: an absent part stays absent. */
  function StripPart(part: Option<string>): (r: Option<string>)
    ensures r.Some? <==> part.Some?
    ensures r.Some? ==> AllDigits(r.value)
  {
    match part
    case None => None
    case Some(text) => Some(StripNonDigits(text))
  }

  /** Python truthiness of a part: present and not empty. */
  predicate Present(part: Option<string>) {
    part.Some? && part.value != []
  }

  /** The legacy fallback parser. */
  function LegacyParts(number: string, code: string): (r: Result<Parts, ParseError>)
    ensures r.Failure? ==> r.error == MissingParts(code, number)
    ensures r.Success? && IsNumberOnlyType(code) ==> r.value.pointOfSale == 0
  {
    var raw := SelectRawParts(number, code);
    var invoiceNumber := StripPart(raw.invoiceNumber);
    var pointOfSale := StripPart(raw.pointOfSale);
    if !Present(invoiceNumber) || !Present(pointOfSale) then
      Failure(MissingParts(code, number))
    else
      Success(Parts(Value(pointOfSale.value), Value(invoiceNumber.value)))
  }

  /** The whole parser: the base localisation's parser, given here as a
      partial function (`None` when it raises), wins whenever it succeeds;
      the legacy rules run only when it fails. */
  function GetDocumentNumberParts(
    baseParser: (string, string) -> Option<Parts>, number: string, code: string)
    : (r: Result<Parts, ParseError>)
    ensures baseParser(number, code).Some? ==> r == Success(baseParser(number, code).value)
    ensures baseParser(number, code).None? ==> r == LegacyParts(number, code)
  {
    match baseParser(number, code)
    case Some(parts) => Success(parts)
    case None => LegacyParts(number, code)
  }

  /** What the legacy parser yields for a point-of-sale text and an
      invoice-number text: both read after digit stripping, or the error when
      either has no digit. */
  function FromTexts(pointOfSale: string, invoiceNumber: string, number: string, code: string)
    : Result<Parts, ParseError>
  {
    if HasDigit(pointOfSale) && HasDigit(invoiceNumber) then
      Success(Parts(Value(StripNonDigits(pointOfSale)), Value(StripNonDigits(invoiceNumber))))
    else
      Failure(MissingParts(code, number))
  }

  /** Number-only document types: the point of sale is 0 and the invoice
      number is read from the digits of the whole string, hyphens or not;
      the parser fails exactly when the string has no digit. */
  lemma NumberOnlyBranch(number: string, code: string)
    requires IsNumberOnlyType(code)
    ensures LegacyParts(number, code).Success? <==> HasDigit(number)
    ensures HasDigit(number) ==>
      LegacyParts(number, code) == Success(Parts(0, Value(StripNonDigits(number))))
  {
    assert StripNonDigits("0") == "0";
    assert Value("0") == 0;
  }

  /** Other types, with a hyphen: for any text `lead` that is empty or ends in
      a hyphen, `lead + pos + "-" + inv` reads its point of sale from `pos`
      and its invoice number from `inv`; whatever `lead` holds is ignored. */
  lemma HyphenBranch(lead: string, pos: string, inv: string, code: string)
    requires !IsNumberOnlyType(code)
    requires '-' !in pos && '-' !in inv
    requires lead == [] || lead[|lead| - 1] == '-'
    ensures var number := lead + pos + "-" + inv;
      LegacyParts(number, code) == FromTexts(pos, inv, number, code)
  {
    var number := lead + pos + "-" + inv;
    assert number[|lead| + |pos|] == '-';
    SplitEndsWith(lead, pos, inv, '-');
  }

  /** Every hyphenated number of another type is covered by `HyphenBranch`:
      it is read from its last two segments. */
  lemma HyphenTotal(number: string, code: string)
    requires !IsNumberOnlyType(code) && '-' in number
    ensures var r := Split(number, '-');
      |r| >= 2 && LegacyParts(number, code) == FromTexts(r[|r| - 2], r[|r| - 1], number, code)
  {
    var r := Split(number, '-');
    LastTwoSegments(number, '-');
    var lead, pos, inv := LeadingText(r, '-'), r[|r| - 2], r[|r| - 1];
    assert '-' !in pos && '-' !in inv;
    assert number == lead + pos + "-" + inv;
    HyphenBranch(lead, pos, inv, code);
  }

  /** Other types, no hyphen, exactly 12 characters: the first four are the
      point of sale and the last eight the invoice number, so the point of
      sale is below 10^4 and the invoice number below 10^8. */
  lemma FixedWidthBranch(number: string, code: string)
    requires !IsNumberOnlyType(code)
    requires '-' !in number && |number| == 12
    ensures LegacyParts(number, code) == FromTexts(number[..4], number[4..], number, code)
    ensures LegacyParts(number, code).Success? ==>
      LegacyParts(number, code).value.pointOfSale < 10000 &&
      LegacyParts(number, code).value.invoiceNumber < 100000000
  {
    var pos, inv := StripNonDigits(number[..4]), StripNonDigits(number[4..]);
    if HasDigit(number[..4]) && HasDigit(number[4..]) {
      Pow10Monotone(|pos|, 4);
      Pow10Monotone(|inv|, 8);
      assert Pow10(4) == 10000;
      assert Pow10(8) == 100000000;
    }
  }

  /** Other types, no hyphen, any length but 12: always the error. */
  lemma OtherLengthFails(number: string, code: string)
    requires !IsNumberOnlyType(code)
    requires '-' !in number && |number| != 12
    ensures LegacyParts(number, code) == Failure(MissingParts(code, number))
  {
  }

  /** The common case of the hyphen branch: one hyphen between the two parts. */
  lemma HyphenPair(pos: string, inv: string, code: string)
    requires !IsNumberOnlyType(code)
    requires '-' !in pos && '-' !in inv
    ensures LegacyParts(pos + "-" + inv, code) == FromTexts(pos, inv, pos + "-" + inv, code)
  {
    var number := pos + "-" + inv;
    assert number[|pos|] == '-';
    SplitPair(pos, inv, '-');
  }

  /** Texts that are already non-empty digit strings are read as they are. */
  lemma FromDigitTexts(pos: string, inv: string, number: string, code: string)
    requires AllDigits(pos) && |pos| >= 1 && AllDigits(inv) && |inv| >= 1
    ensures '-' !in pos && '-' !in inv
    ensures FromTexts(pos, inv, number, code) == Success(Parts(Value(pos), Value(inv)))
  {
    assert IsDigit(pos[0]) && IsDigit(inv[0]);
    AllDigitsMembers(pos);
    AllDigitsMembers(inv);
  }

  /** Writing a point of sale and an invoice number with any zero padding
      around a hyphen and parsing the result gives both numbers back. */
  lemma HyphenatedRoundTrip(pointOfSale: nat, invoiceNumber: nat, posWidth: nat, invWidth: nat, code: string)
    requires !IsNumberOnlyType(code)
    ensures LegacyParts(Padded(pointOfSale, posWidth) + "-" + Padded(invoiceNumber, invWidth), code)
         == Success(Parts(pointOfSale, invoiceNumber))
  {
    var pos, inv := Padded(pointOfSale, posWidth), Padded(invoiceNumber, invWidth);
    FromDigitTexts(pos, inv, pos + "-" + inv, code);
    HyphenPair(pos, inv, code);
    ValueOfPadded(pointOfSale, posWidth);
    ValueOfPadded(invoiceNumber, invWidth);
  }

  /** The unhyphenated 12-character form: a point of sale below 10^4 padded
      to four digits followed by an invoice number below 10^8 padded to
      eight digits parses back to both numbers. */
  lemma FixedWidthRoundTrip(pointOfSale: nat, invoiceNumber: nat, code: string)
    requires !IsNumberOnlyType(code)
    requires pointOfSale < 10000 && invoiceNumber < 100000000
    ensures LegacyParts(Padded(pointOfSale, 4) + Padded(invoiceNumber, 8), code)
         == Success(Parts(pointOfSale, invoiceNumber))
  {
    assert Pow10(4) == 10000;
    assert Pow10(8) == 100000000;
    var pos, inv := Padded(pointOfSale, 4), Padded(invoiceNumber, 8);
    var number := pos + inv;
    assert '-' !in number by {
      assert AllDigits(number);
      AllDigitsMembers(number);
    }
    FixedWidthBranch(number, code);
    assert number[..4] == pos && number[4..] == inv;
    assert IsDigit(pos[0]) && IsDigit(inv[0]);
    ValueOfPadded(pointOfSale, 4);
    ValueOfPadded(invoiceNumber, 8);
  }

  /** Number-only types: any padded rendering of an invoice number parses
      back to it, with point of sale 0. */
  lemma NumberOnlyRoundTrip(invoiceNumber: nat, width: nat, code: string)
    requires IsNumberOnlyType(code)
    ensures LegacyParts(Padded(invoiceNumber, width), code) == Success(Parts(0, invoiceNumber))
  {
    var inv := Padded(invoiceNumber, width);
    assert IsDigit(inv[0]);
    NumberOnlyBranch(inv, code);
    ValueOfPadded(invoiceNumber, width);
  }

  /** An all-digit 12-character number is read field by field. */
  lemma FixedWidthDigits(number: string, code: string)
    requires !IsNumberOnlyType(code)
    requires AllDigits(number) && |number| == 12
    ensures LegacyParts(number, code) == Success(Parts(Value(number[..4]), Value(number[4..])))
  {
    AllDigitsMembers(number);
    var pos, inv := number[..4], number[4..];
    assert AllDigits(pos) && AllDigits(inv);
    FromDigitTexts(pos, inv, number, code);
    FixedWidthBranch(number, code);
  }

  /** Every all-digit 12-character number parses, and writing the parts back
      in the fixed-width form reproduces it character for character. */
  lemma FixedWidthCanonical(number: string, code: string)
    requires !IsNumberOnlyType(code)
    requires AllDigits(number) && |number| == 12
    ensures LegacyParts(number, code).Success?
    ensures var p := LegacyParts(number, code).value;
      Padded(p.pointOfSale, 4) + Padded(p.invoiceNumber, 8) == number
  {
    var pos, inv := number[..4], number[4..];
    assert AllDigits(pos) && AllDigits(inv);
    FixedWidthDigits(number, code);
    PaddedOfValue(pos);
    PaddedOfValue(inv);
    assert number == pos + inv;
  }

  /** Every `P-N` number with non-empty all-digit fields parses, and padding
      the parts back to the fields' widths reproduces it. */
  lemma HyphenatedCanonical(pos: string, inv: string, code: string)
    requires !IsNumberOnlyType(code)
    requires AllDigits(pos) && |pos| >= 1 && AllDigits(inv) && |inv| >= 1
    ensures LegacyParts(pos + "-" + inv, code).Success?
    ensures var p := LegacyParts(pos + "-" + inv, code).value;
      Padded(p.pointOfSale, |pos|) + "-" + Padded(p.invoiceNumber, |inv|) == pos + "-" + inv
  {
    FromDigitTexts(pos, inv, pos + "-" + inv, code);
    HyphenPair(pos, inv, code);
    PaddedOfValue(pos);
    PaddedOfValue(inv);
  }

  /** `Value` of a few digit strings used by the examples below. */
  lemma SmallValues()
    ensures Value("1") == 1 && Value("2") == 2 && Value("3") == 3
    ensures Value("0001") == 1 && Value("00000123") == 123
  {
    assert "0001" == Zeros(3) + "1";
    ValueLeadingZeros(3, "1");
    assert "00000123" == Zeros(5) + "123";
    ValueLeadingZeros(5, "123");
    assert Value("123") == 1 * 100 + Value("23");
  }

  /** `0001-00000123` is point of sale 1, invoice number 123. */
  lemma ExampleHyphenated(number: string, code: string)
    requires number == "0001-00000123" && !IsNumberOnlyType(code)
    ensures LegacyParts(number, code) == Success(Parts(1, 123))
  {
    var pos, inv := "0001", "00000123";
    assert number == pos + "-" + inv;
    FromDigitTexts(pos, inv, number, code);
    HyphenPair(pos, inv, code);
    SmallValues();
  }

  /** `000100000123` is point of sale 1, invoice number 123. */
  lemma ExampleFixedWidth(number: string, code: string)
    requires number == "000100000123" && !IsNumberOnlyType(code)
    ensures LegacyParts(number, code) == Success(Parts(1, 123))
  {
    assert number == "0001" + "00000123";
    assert number[..4] == "0001" && number[4..] == "00000123";
    assert AllDigits(number) by {
      assert AllDigits("0001") && AllDigits("00000123");
    }
    assert Value(number[..4]) == 1 && Value(number[4..]) == 123 by {
      SmallValues();
    }
    FixedWidthDigits(number, code);
  }

  /** `1-2-3` is point of sale 2, invoice number 3: the first segment is
      ignored. */
  lemma ExampleThreeSegments()
    ensures LegacyParts("1-2-3", "01") == Success(Parts(2, 3))
  {
    var number, code := "1-2-3", "01";
    var lead, pos, inv := "1-", "2", "3";
    assert number == lead + pos + "-" + inv;
    assert FromTexts(pos, inv, number, code) == Success(Parts(2, 3)) by {
      FromDigitTexts(pos, inv, number, code);
      SmallValues();
    }
    HyphenBranch(lead, pos, inv, code);
  }

  /** `ABC` has no hyphen and is not 12 characters long. */
  lemma ExampleShortFails()
    ensures LegacyParts("ABC", "01").Failure?
  {
    OtherLengthFails("ABC", "01");
  }

  /** `5-` and `-` leave a part empty. */
  lemma ExampleEmptyPartFails()
    ensures LegacyParts("5-", "01").Failure?
    ensures LegacyParts("-", "01").Failure?
  {
    assert "5-" == "5" + "-" + "";
    HyphenPair("5", "", "01");
    assert "-" == "" + "-" + "";
    HyphenPair("", "", "01");
  }

  /** A 12-letter string has no digit in its point-of-sale field. */
  lemma ExampleLettersFail()
    ensures LegacyParts("ABCDEFGHIJKL", "01").Failure?
  {
    var letters := "ABCDEFGHIJKL";
    assert '-' !in letters;
    assert !HasDigit(letters[..4]) by {
      assert letters[..4] == "ABCD";
    }
    FixedWidthBranch(letters, "01");
  }
}
