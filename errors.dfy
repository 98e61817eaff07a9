/** The transport error signal (error.go): a status code and a reason, its
    message text, and the hand-written `Is` comparison. */
module Errors {
  import opened Basics
  import Decimal

  const CodePrefix := "code: "
  const ReasonSeparator := ", reason: "

  /** An HTTP error; a non-empty reason goes into the `X-Reason` header
      (BUD-01). The empty reason is a value of its own. */
  datatype Error = Error(code: int, reason: string)
  {
    /** Go's `Error()`: `fmt.Sprintf("code: %d, reason: %s", Code, Reason)`. */
    function Message(): (m: string)
      ensures
        var c := |CodePrefix| + |Decimal.FormatInt(code)|;
        && c + |ReasonSeparator| + |reason| == |m|
        && m[..|CodePrefix|] == CodePrefix
        && Decimal.IsIntText(m[|CodePrefix|..c])
        && Decimal.ParseInt(m[|CodePrefix|..c]) == code
        && m[c..c + |ReasonSeparator|] == ReasonSeparator
        && m[c + |ReasonSeparator|..] == reason
    {
      var f := Decimal.FormatInt(code);
      Decimal.FormatIntRoundTrip(code);
      var m := CodePrefix + f + ReasonSeparator + reason;
      assert m[|CodePrefix|..|CodePrefix| + |f|] == f;
      m
    }

    /** Go's `String()`, which returns `Error()`. */
    function String(): (s: string)
      ensures s == Message()
    {
      Message()
    }
  }

  /** The dynamic value passed to `Is` as its `error` argument. */
  datatype Target =
    | NilTarget                        // the nil interface
    | ValueTarget(err: Error)          // a value of type Error
    | PointerTarget(ptr: Option<Error>)  // a *Error; `None` is a typed nil pointer, not the nil interface
    | OtherTarget(message: string)     // a value of any other error type

  /** `(*Error).Is`; `receiver` is `None` for a nil `*Error`. A nil receiver
      matches only the nil interface; otherwise only a value `Error` with the
      same code and the same reason matches. */
  function Is(receiver: Option<Error>, target: Target): (r: bool)
    ensures receiver.None? ==> (r <==> target == NilTarget)
    ensures receiver.Some? ==> (r <==> target == ValueTarget(receiver.value))
  {
    if receiver.None? then target.NilTarget?
    else
      match target
      case ValueTarget(err) => receiver.value.code == err.code && receiver.value.reason == err.reason
      case _ => false
  }

  /** Every non-nil receiver matches its own value. */
  lemma IsReflexive(e: Error)
    ensures Is(Some(e), ValueTarget(e))
  {
  }

  /** A pointer target never matches, not even a typed nil pointer against a
      nil receiver; neither does a target of another type. */
  lemma IsRejectsNonValues(receiver: Option<Error>, ptr: Option<Error>, message: string)
    ensures !Is(receiver, PointerTarget(ptr))
    ensures !Is(receiver, OtherTarget(message))
  {
  }

  /** Matching values is symmetric. */
  lemma IsSymmetric(a: Error, b: Error)
    ensures Is(Some(a), ValueTarget(b)) == Is(Some(b), ValueTarget(a))
  {
  }

  /** An empty reason is not matched by a non-empty one with the same code. */
  lemma EmptyReasonIsDistinct(code: int, reason: string)
    requires reason != ""
    ensures !Is(Some(Error(code, "")), ValueTarget(Error(code, reason)))
    ensures !Is(Some(Error(code, reason)), ValueTarget(Error(code, "")))
  {
  }

  /** In the text after the prefix, the first comma is the one that opens
      the separator: the decimal code has none. */
  lemma FirstCommaEndsCode(e: Error, i: nat)
    requires i <= |Decimal.FormatInt(e.code)|
    ensures e.Message()[|CodePrefix| + i] == ',' <==> i == |Decimal.FormatInt(e.code)|
  {
    var f := Decimal.FormatInt(e.code);
    assert e.Message() == CodePrefix + f + ReasonSeparator + e.reason;
    if i < |f| {
      assert e.Message()[|CodePrefix| + i] == f[i];
    }
  }

  /** The message determines the error: distinct errors print differently. */
  lemma MessageInjective(a: Error, b: Error)
    requires a.Message() == b.Message()
    ensures a == b
  {
    var m := a.Message();
    var p := |CodePrefix|;
    var fa, fb := Decimal.FormatInt(a.code), Decimal.FormatInt(b.code);
    if |fa| < |fb| {
      FirstCommaEndsCode(a, |fa|);
      FirstCommaEndsCode(b, |fa|);
    } else if |fb| < |fa| {
      FirstCommaEndsCode(a, |fb|);
      FirstCommaEndsCode(b, |fb|);
    }
    assert m == CodePrefix + fa + ReasonSeparator + a.reason;
    assert m == CodePrefix + fb + ReasonSeparator + b.reason;
    assert fa == m[p..p + |fa|] == fb;
    Decimal.FormatIntInjective(a.code, b.code);
    assert a.reason == m[p + |fa| + |ReasonSeparator|..] == b.reason;
  }
}
