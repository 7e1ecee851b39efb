/** The PHP values the plugin inspects, reduced to what its checks look at. */
module Php {
  import opened Strings

  /** A request field: a string, or any other PHP value, known only by its truthiness. */
  datatype Value = Str(s: string) | NonString(truthy: bool)

  /** PHP's `empty($fields[$key])`: absent, a falsy non-string, `""` or `"0"`. */
  predicate EmptyField(fields: map<string, Value>, key: string) {
    key !in fields
    || match fields[key]
       case Str(s) => IsEmptyString(s)
       case NonString(t) => !t
  }

  /**
   * The value a dispatch handler returns as the immediate response. A scalar
   * other than a string carries its truthiness and its `(string)` form; an
   * array carries whether it is non-empty, and an array or an object carries
   * the payload WordPress would serialise. Objects are taken to have no
   * `__toString` method.
   */
  datatype Response =
    | Text(s: string)
    /**
     * A boolean, integer or float, described by its truthiness and its
     * `(string)` conversion as PHP computes them. The pair is taken as given;
     * nothing here rules out a pair no PHP scalar has.
     */
    | OtherScalar(truthy: bool, asString: string)
    | Null
    | ArrayValue(nonEmpty: bool, payload: string)
    | ObjectValue(payload: string)
  {
    /** PHP's boolean conversion: an object is always truthy. */
    predicate Truthy() {
      match this
      case Text(s) => !IsEmptyString(s)
      case OtherScalar(t, _) => t
      case Null => false
      case ArrayValue(n, _) => n
      case ObjectValue(_) => true
    }

    /** `is_scalar`: `null`, arrays and objects are not scalars. */
    predicate IsScalar() {
      Text? || OtherScalar?
    }

    /** Whether `(string)` and `echo` succeed: for an object they raise an `Error`. */
    predicate Printable() {
      !ObjectValue?
    }

    /** `(string)` and `echo`: an array prints as `Array`. */
    function AsString(): string
      requires Printable()
    {
      match this
      case Text(s) => s
      case OtherScalar(_, t) => t
      case Null => ""
      case ArrayValue(_, _) => "Array"
    }
  }
}
