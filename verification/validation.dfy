/**
 * `throwIfValidationErrors` (src/utils/utilities.ts): fold the request-validation errors
 * into a single message and reject the request with HTTP status 400.
 */
module Validation {
  import opened Wrappers
  import opened Strings
  import opened Records

  /** One entry of the validation result's `array()`: the field, its message, the value seen. */
  datatype FieldError<V> = FieldError(path: string, msg: string, value: Js<V>)

  /** The error the helper throws: a message and an HTTP status code. */
  datatype CustomError = CustomError(message: string, status: int)

  const BadRequest: int := 400
  const Separator: string := "; "

  /** `path: msg`, then ` (received: <JSON of value>)` when the value is defined. */
  function Render<V>(e: FieldError<V>, stringify: V -> string): string {
    e.path + ": " + e.msg + if e.value.Defined? then " (received: " + stringify(e.value.value) + ")" else ""
  }

  /** Every error rendered, in input order. */
  function Renders<V>(errors: seq<FieldError<V>>, stringify: V -> string): (lines: seq<string>)
    ensures |lines| == |errors|
  {
    seq(|errors|, i requires 0 <= i < |errors| => Render(errors[i], stringify))
  }

  /**
   * `throwIfValidationErrors(errors)`: returns normally when there are no errors, and
   * otherwise throws status 400 with the rendered errors joined by `"; "`.
   * `stringify` stands for `JSON.stringify`.
   */
  function ThrowIfValidationErrors<V>(errors: seq<FieldError<V>>, stringify: V -> string): (r: Outcome<CustomError>)
    ensures r.Pass? <==> |errors| == 0
    ensures r.Fail? ==> r.error.status == 400
    ensures r.Fail? ==> Render(errors[0], stringify) <= r.error.message
    ensures |errors| == 1 ==> r.Fail? && r.error.message == Render(errors[0], stringify)
  {
    if |errors| == 0 then Pass
    else Fail(CustomError(Join(Renders(errors, stringify), Separator), BadRequest))
  }

  /** The message lists every error, in order: splitting it at `"; "` recovers each rendering. */
  lemma MessageSplits<V>(errors: seq<FieldError<V>>, stringify: V -> string)
    requires |errors| > 0
    requires forall i :: 0 <= i < |errors| ==> !Contains(Render(errors[i], stringify), Separator)
    ensures ThrowIfValidationErrors(errors, stringify).Fail?
    ensures Split(ThrowIfValidationErrors(errors, stringify).error.message, Separator) == Renders(errors, stringify)
  {
    var lines := Renders(errors, stringify);
    forall i | 0 <= i < |lines|
      ensures Separable(lines[i], Separator)
    {
      SemicolonSeparable(lines[i]);
    }
    SplitJoin(lines, Separator);
  }

  /** The message for `a + b` is the message for `a`, a separator, and the message for `b`. */
  lemma MessageAppend<V>(a: seq<FieldError<V>>, b: seq<FieldError<V>>, stringify: V -> string)
    requires |a| > 0 && |b| > 0
    ensures ThrowIfValidationErrors(a + b, stringify).error.message
         == ThrowIfValidationErrors(a, stringify).error.message + Separator
          + ThrowIfValidationErrors(b, stringify).error.message
  {
    assert Renders(a + b, stringify) == Renders(a, stringify) + Renders(b, stringify);
    JoinAppend(Renders(a, stringify), Renders(b, stringify), Separator);
  }
}
