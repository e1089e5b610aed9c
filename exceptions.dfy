/**
 * The .NET exceptions the service throws and the controller catches.
 * A `catch (T ex)` clause catches every exception whose type is T or derives
 * from T, so the subclass relation is part of the model: an
 * ArgumentOutOfRangeException is caught by `catch (ArgumentException)`.
 */
module Exceptions {
  import opened Wrappers

  datatype ExceptionType =
    | Exception
    | SystemException
    | ArgumentException
    | ArgumentOutOfRangeException
    | KeyNotFoundException

  /** Distance from System.Exception in the class hierarchy. */
  function Depth(t: ExceptionType): (d: nat) {
    match t
    case Exception => 0
    case SystemException => 1
    case ArgumentException => 2
    case ArgumentOutOfRangeException => 3
    case KeyNotFoundException => 2
  }

  /** The direct base class; System.Exception has none. */
  function BaseType(t: ExceptionType): (b: Option<ExceptionType>)
    ensures b.None? <==> t == Exception
    ensures b.Some? ==> Depth(b.value) + 1 == Depth(t)
  {
    match t
    case Exception => None
    case SystemException => Some(Exception)
    case ArgumentException => Some(SystemException)
    case ArgumentOutOfRangeException => Some(ArgumentException)
    case KeyNotFoundException => Some(SystemException)
  }

  /** `t` is `b` or derives from it: what `catch (b ex)` tests. */
  predicate IsA(t: ExceptionType, b: ExceptionType)
    decreases Depth(t)
  {
    t == b || (BaseType(t).Some? && IsA(BaseType(t).value, b))
  }

  /** Every exception is a System.Exception, so `catch (Exception)` is a catch-all. */
  lemma {:induction false} EveryTypeIsException(t: ExceptionType)
    ensures IsA(t, Exception)
    decreases Depth(t)
  {
    if t != Exception {
      EveryTypeIsException(BaseType(t).value);
    }
  }

  /** The two catch clauses the controller puts before its catch-all are
      disjoint, and the first one also takes the out-of-range subclass. */
  lemma CatchClauses(t: ExceptionType)
    ensures IsA(t, ArgumentException) <==> t == ArgumentException || t == ArgumentOutOfRangeException
    ensures IsA(t, KeyNotFoundException) <==> t == KeyNotFoundException
    ensures !(IsA(t, ArgumentException) && IsA(t, KeyNotFoundException))
  {
    match t
    case Exception =>
    case SystemException =>
    case ArgumentException =>
    case ArgumentOutOfRangeException =>
      assert IsA(ArgumentException, SystemException) && IsA(SystemException, Exception);
    case KeyNotFoundException =>
  }

  /** A thrown exception: its type, the text given to its constructor and,
      for the argument exceptions, the parameter name. */
  datatype Exn = Exn(kind: ExceptionType, text: string, paramName: Option<string>) {

    /** `Exception.Message`. Since .NET Core 3.0, ArgumentException and its
        subclasses append " (Parameter '<name>')" when a parameter name is set. */
    function Message(): (m: string)
      ensures |m| >= |text| && m[..|text|] == text
    {
      if IsA(kind, ArgumentException) && paramName.Some? && paramName.value != ""
      then text + " (Parameter '" + paramName.value + "')"
      else text
    }
  }

  /** How a call into the service ends: it returns a value or throws. */
  datatype Outcome<+T> = Returned(value: T) | Threw(exn: Exn)
}
