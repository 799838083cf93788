/**
 * The field-error map every form keeps (`errors` in the components), the two ways a
 * change clears an error, and the outcome of pressing Submit.
 */
module FormErrors {
  import opened Optional
  import opened Strings
  import opened Numbers

  /**
   * A key of the error map: one of the form's inputs (the source keys these by the input's
   * `name`), or the `submit` entry set when saving fails.
   */
  datatype Key<F> = On(field: F) | Submit

  /** What a validation rule reports about an input: each form words these in its own `Wording`. */
  datatype Problem<F> = Required(field: F) | TooLong(field: F) | OutOfRange(field: F)

  /**
   * A message of the error map: the fixed message of a broken rule, or free text (the
   * error a failed save reports, or `''` once an error is blanked).
   */
  datatype Message<F> = Rule(problem: Problem<F>) | Text(text: string)

  /** Key to message, as in `newErrors.title = 'Title is required'`. */
  type Errors<F(==)> = map<Key<F>, Message<F>>

  /** An error is displayed for `key` when its message is present and non-empty. */
  predicate Shown<F(==)>(e: Errors<F>, key: Key<F>) {
    key in e && e[key] != Text("")
  }

  /** A required text field fails when blank (after trimming) or longer than `max` code units. */
  predicate MissingOrTooLong(value: string, max: nat) {
    IsBlank(value) || Utf16Length(value) > max
  }

  /**
   * An optional whole-number input: empty passes, otherwise `parseInt` must give an
   * integer in `[lo, hi]` (`isNaN(n) || n < lo || n > hi` is the failing test).
   */
  predicate IntInRangeOrEmpty(v: Value, lo: int, hi: int) {
    !Truthy(v) || (IntOf(v).Some? && lo <= IntOf(v).value <= hi)
  }

  /** The same for a decimal input read with `parseFloat`. */
  predicate RealInRangeOrEmpty(v: Value, lo: real, hi: real) {
    !Truthy(v) || (FloatOf(v).Some? && lo <= FloatOf(v).value <= hi)
  }

  /** A required whole-number input: non-empty, and `parseInt` gives an integer in `[lo, hi]`. */
  predicate RequiredIntInRange(v: Value, lo: int, hi: int) {
    Truthy(v) && IntOf(v).Some? && lo <= IntOf(v).value <= hi
  }

  /**
   * `!(v < lo || v > hi)`: the comparisons coerce with `Number`, so a value that is not a
   * number (`NaN`) compares false both ways and passes.
   */
  predicate NotOutside(v: Value, lo: real, hi: real) {
    !Below(v, lo) && !Above(v, hi)
  }

  /**
   * A numeric input that passed `NotOutside` for whole bounds is sent, as `parseInt(v) || 0`,
   * within the same bounds.
   */
  lemma NotOutsideIntSent(v: Value, lo: int, hi: int)
    requires NotOutside(v, lo as real, hi as real) && NumberOf(v).Some?
    ensures lo <= OrZero(IntOf(v)) <= hi
  {
    IntOfNumber(v);
    TruncSpec(NumberOf(v).value);
  }

  /** A numeric input that passed `NotOutside` is sent, as `parseFloat(v) || 0`, within the bounds. */
  lemma NotOutsideRealSent(v: Value, lo: real, hi: real)
    requires NotOutside(v, lo, hi) && NumberOf(v).Some?
    ensures lo <= OrZeroReal(FloatOf(v)) <= hi
  {
    FloatOfNumber(v);
  }

  /** Blank is reported before length: the problem of a failing required text field. */
  function RequiredProblem<F>(value: string, field: F): Problem<F> {
    if IsBlank(value) then Required(field) else TooLong(field)
  }

  /**
   * The Book, Textbook and Chapter forms clear a displayed error on change by setting it
   * to `undefined`, which no reader of the map can tell apart from an absent key.
   */
  function ClearedOnChange<F(==,!new)>(e: Errors<F>, key: Key<F>): (r: Errors<F>)
    ensures !Shown(r, key)
    ensures forall k :: k != key ==> (k in r <==> k in e)
    ensures forall k :: k != key && k in e ==> r[k] == e[k]
  {
    if Shown(e, key) then e - {key} else e
  }

  /** The Thesis and Research Paper forms clear a displayed error by setting it to `''`. */
  function BlankedOnChange<F(==,!new)>(e: Errors<F>, key: Key<F>): (r: Errors<F>)
    ensures !Shown(r, key)
    ensures forall k :: k != key ==> (k in r <==> k in e)
    ensures forall k :: k != key && k in e ==> r[k] == e[k]
  {
    if Shown(e, key) then e[key := Text("")] else e
  }

  /** When `onSubmit` throws, the form shows only the submit error. */
  function SubmitFailure<F(==)>(message: Option<string>): (r: Errors<F>)
    ensures r.Keys == {Submit}
    ensures Shown(r, Submit)
    ensures message.Some? && message.value != "" ==> r[Submit] == Text(message.value)
  {
    map[Submit := Text(TextOr(message, "Failed to submit form"))]
  }

  /**
   * Pressing Submit either stops at validation or hands a payload to `onSubmit`. Either way
   * `errors` is the map validation stored in place of the shown errors, so a payload is sent
   * with the errors reset to `{}`, which clears a `submit` error left by an earlier failed save.
   */
  datatype Submission<F(==), P> = Blocked(errors: Errors<F>) | Sent(errors: Errors<F>, payload: P)
}
