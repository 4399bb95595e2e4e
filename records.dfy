/**
  The reward records and the validation the submit handler applies to the
  form's three fields before it builds a record.
 */
module Records {
  import opened Wrappers
  import opened JsStrings
  import opened IntParsing

  /**
    The calendar month a record's ISO timestamp falls in, as the dashboard
    decodes it: the full year and `getMonth()` (0 for January).
   */
  datatype YearMonth = YearMonth(year: int, month: int)

  /**
    One reward: a millisecond timestamp used as id, who did the chore, which
    chore it was (the `type` field), the amount of yen and when it was entered.
   */
  datatype Record = Record(id: int, registrant: JsString, kind: JsString, amount: int, date: YearMonth)

  /** The validated content of the form: trimmed name and chore, parsed amount. */
  datatype Entry = Entry(registrant: JsString, kind: JsString, amount: int)

  /**
    The checks of the submit handler: the trimmed name and the trimmed chore must
    be non-empty strings and `parseInt` of the amount field must not be NaN.
   */
  function Validate(registrantField: JsString, kindField: JsString, amountField: JsString): (r: Option<Entry>)
    ensures r.None? <==> Trim(registrantField) == [] || Trim(kindField) == [] || ParseInt(amountField).None?
    ensures r.Some? ==> r.value.registrant == Trim(registrantField) && r.value.kind == Trim(kindField)
    ensures r.Some? ==> Some(r.value.amount) == ParseInt(amountField)
  {
    var registrant := Trim(registrantField);
    var kind := Trim(kindField);
    var amount := ParseInt(amountField);
    if registrant == [] || kind == [] || amount.None? then None
    else Some(Entry(registrant, kind, amount.value))
  }

  /** The record the handler builds from a validated entry, an id and a date. */
  function NewRecord(e: Entry, id: int, date: YearMonth): (r: Record)
    ensures r.registrant == e.registrant && r.kind == e.kind && r.amount == e.amount
    ensures r.id == id && r.date == date
  {
    Record(id, e.registrant, e.kind, e.amount, date)
  }

  /**
    A submission is refused exactly when the name or the chore is nothing but
    white space, or the amount field holds no number parseInt can read.
   */
  lemma RejectsBlank(registrantField: JsString, kindField: JsString, amountField: JsString)
    ensures Validate(registrantField, kindField, amountField).None? <==>
      IsBlank(registrantField) || IsBlank(kindField) || ParseInt(amountField).None?
  {
    TrimIsBlankFree(registrantField);
    TrimIsBlankFree(kindField);
  }

  /**
    An accepted name and chore begin and end with a non-white-space code unit,
    and are the middle of the field, between a blank prefix and blank suffix.
   */
  lemma AcceptedIsTrimmed(registrantField: JsString, kindField: JsString, amountField: JsString)
    requires Validate(registrantField, kindField, amountField).Some?
    ensures var e := Validate(registrantField, kindField, amountField).value;
      !IsTrimmable(e.registrant[0]) && !IsTrimmable(e.registrant[|e.registrant| - 1]) &&
      !IsTrimmable(e.kind[0]) && !IsTrimmable(e.kind[|e.kind| - 1]) &&
      (exists i: nat :: TrimmedAt(registrantField, i, e.registrant)) &&
      (exists i: nat :: TrimmedAt(kindField, i, e.kind))
  {
    TrimIsBlankFree(registrantField);
    TrimIsBlankFree(kindField);
  }

  /**
    Submitting the fields of an accepted entry again, with the same amount
    field, is accepted with the same entry: validation is idempotent.
   */
  lemma RevalidateAccepted(registrantField: JsString, kindField: JsString, amountField: JsString)
    requires Validate(registrantField, kindField, amountField).Some?
    ensures var e := Validate(registrantField, kindField, amountField).value;
      Validate(e.registrant, e.kind, amountField) == Some(e)
  {
    TrimIdempotent(registrantField);
    TrimIdempotent(kindField);
  }

  /**
    An amount field of white space, an optional sign and decimal digits,
    followed by anything that is not a digit, is accepted with the value of
    those digits: `" 300yen"` gives 300.
   */
  lemma AcceptsDecimalAmount(registrantField: JsString, kindField: JsString,
                             ws: JsString, sign: JsString, digits: JsString, rest: JsString)
    requires !IsBlank(registrantField) && !IsBlank(kindField)
    requires IsBlank(ws) && IsSign(sign) && DecimalBlock(digits, rest)
    ensures var r := Validate(registrantField, kindField, ws + sign + digits + rest);
      r.Some? && r.value.amount == if sign == [Minus] then -(ValueOf(digits, 10) as int) else ValueOf(digits, 10)
  {
    TrimIsBlankFree(registrantField);
    TrimIsBlankFree(kindField);
    ParseDecimal(ws, sign, digits, rest);
  }
}
