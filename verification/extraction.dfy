/** The extraction engine: normalise line endings, start from a record with
    every field absent, and fill in each field whose matcher succeeds. */
module Extraction {

  import opened Wrappers
  import opened Text
  import opened LineEndings
  import opened Matchers
  import opened MatcherFacts
  import opened MatcherCompleteness
  import opened Vendor
  import opened Currency

  /** The six-field extracted record; `None` is the "not found" marker. */
  datatype ExtractedData = ExtractedData(
    invoiceNumber: Option<string>,
    date: Option<string>,
    dueDate: Option<string>,
    vendor: Option<string>,
    total: Option<string>,
    currency: Option<string>)

  /** The record every extraction starts from. */
  const NothingFound: ExtractedData := ExtractedData(None, None, None, None, None, None)

  /** A field keeps its current value unless its matcher found something. */
  function Overwrite(current: Option<string>, found: Option<string>): Option<string> {
    if found.Some? then found else current
  }

  /** `extractInvoiceData`: normalise the line endings, then fill in the
      fields in the order invoice number, date, due date, total, currency,
      vendor, each from its own matcher. */
  function ExtractInvoiceData(text: string): ExtractedData {
    var clean := Normalize(text);
    var d := NothingFound;
    var d := d.(invoiceNumber := Overwrite(d.invoiceNumber, FieldValue(InvoiceNumber, clean)));
    var d := d.(date := Overwrite(d.date, FieldValue(Date, clean)));
    var d := d.(dueDate := Overwrite(d.dueDate, FieldValue(DueDate, clean)));
    var d := d.(total := Overwrite(d.total, FieldValue(Total, clean)));
    var d := d.(currency := Overwrite(d.currency, DetectCurrency(clean)));
    var d := d.(vendor := Overwrite(d.vendor, VendorOf(clean)));
    d
  }

  /** The field of a record that a label matcher fills in. */
  function FieldOf(d: ExtractedData, f: Field): Option<string> {
    match f
    case InvoiceNumber => d.invoiceNumber
    case Date => d.date
    case DueDate => d.dueDate
    case Total => d.total
  }

  /** Each field of the record is its own matcher's result on the
      normalised text: no step overwrites another step's field. */
  lemma FieldsAreIndependent(text: string)
    ensures var r := ExtractInvoiceData(text); var clean := Normalize(text);
      && r.invoiceNumber == FieldValue(InvoiceNumber, clean)
      && r.date == FieldValue(Date, clean)
      && r.dueDate == FieldValue(DueDate, clean)
      && r.total == FieldValue(Total, clean)
      && r.currency == DetectCurrency(clean)
      && r.vendor == VendorOf(clean)
  {
  }

  /** Every label value found has its field's shape, and a label field is
      absent exactly when its pattern matches nowhere in the normalised
      text. */
  lemma LabelFieldFound(text: string, f: Field)
    ensures var v := FieldOf(ExtractInvoiceData(text), f);
      && (v.Some? ==> IsValue(f, v.value))
      && (v.None? <==> NoMatch(f, Normalize(text)))
  {
    FieldsAreIndependent(text);
  }

  /** A due date is never extracted without a date. */
  lemma DueDateNeedsDate(text: string)
    ensures var r := ExtractInvoiceData(text);
      r.dueDate.Some? ==> r.date.Some?
  {
    var clean := Normalize(text);
    FieldsAreIndependent(text);
    if FieldValue(DueDate, clean).Some? {
      DueDateImpliesDate(clean);
    }
  }

  /** The currency is the first of USD, EUR, GBP that the normalised text
      mentions, and absent when it mentions none. */
  lemma CurrencyIsFirstMentioned(text: string)
    ensures var r := ExtractInvoiceData(text); var clean := Normalize(text);
      && (r.currency == Some("USD") <==> MentionsUsd(clean))
      && (r.currency == Some("EUR") <==> !MentionsUsd(clean) && MentionsEur(clean))
      && (r.currency == Some("GBP") <==> !MentionsUsd(clean) && !MentionsEur(clean) && MentionsGbp(clean))
      && (r.currency.None? <==> !MentionsUsd(clean) && !MentionsEur(clean) && !MentionsGbp(clean))
  {
    FieldsAreIndependent(text);
  }

  /** The vendor found is the first line of the normalised text that, once
      trimmed, is non-empty, shorter than 50 characters and mentions neither
      "invoice", "date" nor a match of `bill\s*to`. */
  lemma VendorIsFirstQualifying(text: string)
    ensures var r := ExtractInvoiceData(text);
      r.vendor.Some? ==> Qualifies(r.vendor.value) && FirstQualifyingLine(Normalize(text), r.vendor.value)
  {
    var clean := Normalize(text);
    FieldsAreIndependent(text);
    if VendorOf(clean).Some? {
      VendorIsFirstQualifyingLine(clean);
    }
  }

  /** No vendor is found exactly when no line of the normalised text
      qualifies once trimmed. */
  lemma NoVendorIffNoneQualifies(text: string)
    ensures ExtractInvoiceData(text).vendor.None? <==> NoLineQualifies(Normalize(text))
  {
    var clean := Normalize(text);
    FieldsAreIndependent(text);
    NoVendorWhenNoneQualifies(clean);
    NoneQualifiesWhenNoVendor(clean);
  }

  /** No line of `s` qualifies as the vendor once trimmed. */
  predicate NoLineQualifies(s: string) {
    forall j :: 0 <= j < |SplitLines(s)| ==> !Qualifies(Trim(SplitLines(s)[j]))
  }

  /** The pattern of `f` matches at no position of `s`. */
  predicate NoMatch(f: Field, s: string) {
    forall p :: 0 <= p <= |s| ==> MatchAt(f, s, p).None?
  }

  /** Each label field found is the value part of a label, separator, value
      occurrence in the normalised text. */
  lemma FoundFieldsAreLabelled(text: string)
    ensures var r := ExtractInvoiceData(text);
      r.invoiceNumber.Some? ==>
        exists p, e, q :: LabelledAt(InvoiceNumber, Normalize(text), p, e, q, r.invoiceNumber.value)
    ensures var r := ExtractInvoiceData(text);
      r.date.Some? ==> exists p, e, q :: LabelledAt(Date, Normalize(text), p, e, q, r.date.value)
    ensures var r := ExtractInvoiceData(text);
      r.dueDate.Some? ==> exists p, e, q :: LabelledAt(DueDate, Normalize(text), p, e, q, r.dueDate.value)
    ensures var r := ExtractInvoiceData(text);
      r.total.Some? ==> exists p, e, q :: LabelledAt(Total, Normalize(text), p, e, q, r.total.value)
  {
    var clean := Normalize(text);
    FieldsAreIndependent(text);
    if FieldValue(InvoiceNumber, clean).Some? { FieldValueSound(InvoiceNumber, clean); }
    if FieldValue(Date, clean).Some? { FieldValueSound(Date, clean); }
    if FieldValue(DueDate, clean).Some? { FieldValueSound(DueDate, clean); }
    if FieldValue(Total, clean).Some? { FieldValueSound(Total, clean); }
  }

  /** Each label field found is the value of the leftmost label of its
      field in the normalised text that a separator and a value of the
      field's shape follow. Every label at that position that reads a
      value gives this one, and it is the longest such value there. */
  lemma LabelFieldLeftmost(text: string, f: Field)
    ensures var v := FieldOf(ExtractInvoiceData(text), f);
      v.Some? ==> LeftmostLabelled(f, Normalize(text), v.value)
  {
    FieldsAreIndependent(text);
    if FieldValue(f, Normalize(text)).Some? {
      FieldValueLeftmostLongest(f, Normalize(text));
    }
  }

  /** Conversely, a label field is found whenever the normalised text holds
      a label of it, a separator and a value of its shape. */
  lemma LabelledFieldIsFound(text: string, f: Field, p: nat, e: nat, q: nat, v: string)
    requires LabelledAt(f, Normalize(text), p, e, q, v) && IsValue(f, v)
    ensures FieldOf(ExtractInvoiceData(text), f).Some?
  {
    FieldsAreIndependent(text);
    FieldValueComplete(f, Normalize(text), p, e, q, v);
  }

  /** No label literal fits in the empty text. */
  lemma {:induction false} NoEndsInEmpty(alts: seq<Alt>)
    requires forall a :: a in alts ==> (a.Word? && |a.word| > 0) || (a.Phrase? && |a.head| > 0)
    ensures AltsEnds("", 0, alts) == []
  {
    if alts != [] {
      NoEndsInEmpty(alts[1..]);
    }
  }

  lemma NoFieldInEmpty(f: Field)
    ensures FieldValue(f, "").None?
  {
    NoEndsInEmpty(Alternatives(f));
    assert LabelEnds(f, "", 0) == [];
    assert MatchAt(f, "", 0).None?;
  }

  /** The empty text yields the record with every field absent. */
  lemma EmptyTextFindsNothing(text: string)
    requires |text| == 0
    ensures ExtractInvoiceData(text) == NothingFound
  {
    assert Normalize(text) == text == "";
    FieldsAreIndependent(text);
    NothingInEmpty();
  }

  lemma NothingInEmpty()
    ensures FieldValue(InvoiceNumber, "") == None && FieldValue(Date, "") == None
    ensures FieldValue(DueDate, "") == None && FieldValue(Total, "") == None
    ensures DetectCurrency("") == None && VendorOf("") == None
  {
    NoFieldInEmpty(InvoiceNumber);
    NoFieldInEmpty(Date);
    NoFieldInEmpty(DueDate);
    NoFieldInEmpty(Total);
    NoTriggerNoCurrency("");
    EmptyTextHasNoVendor();
  }

  /** Windows line endings make no difference: a text without carriage
      returns and the same text with every LF written as CR LF give the
      same record. */
  lemma CrlfEquivalence(s: string)
    requires '\r' !in s
    ensures ExtractInvoiceData(ToCrlf(s)) == ExtractInvoiceData(s)
  {
    NormalizeToCrlf(s);
    FieldsAreIndependent(s);
    FieldsAreIndependent(ToCrlf(s));
  }
}
