/** Option and Result values, and the failures the glossary pipeline can raise.
    Every Java `RuntimeException` (and every null dereference or index error that the
    disabled Java `assert` statements would otherwise have caught) becomes a `Failure`. */
module Results {

  datatype Option<+T> = None | Some(value: T) {
    function GetOr(default: T): T {
      match this
      case Some(v) => v
      case None => default
    }

    predicate IsFailure() {
      None?
    }

    function PropagateFailure<U>(): Option<U>
      requires None?
    {
      None
    }

    function Extract(): T
      requires Some?
    {
      value
    }
  }

  /** What went wrong, one constructor per distinct exception site of the source. */
  datatype Failure =
    | ReadFailed(file: string)                // reader: parse or query failure
    | ContentCheckFailed(file: string)        // content file filter: unparsable file or failing query
    | MalformedExpectedResult(expression: string)
    | UnrecognizedFunction(name: string)
    | CommonPartMismatch(fileName: string)    // merge filter: common-part pattern failed
    | NoFilePatternMatch(fileName: string)    // merge filter: neither L1 nor L2 pattern
    | MissingOriginFile                       // merge filter: entry without its file tag
    | MissingMergePartner(key: Option<string>) // merge filter: no or too few L2-side entries
    | MissingField(name: string)              // null include field dereferenced
    | NullLanguageCode                        // null language code dereferenced
    | NullQuery                               // an XPath query that was never configured, evaluated
    | NoCollatorData(language: Option<string>)
    | MissingCollationRules                   // no rule string for a language without a locale
    | InvalidCollationRules                   // rule string that does not parse
    | EmptyInput                              // output writer called with no entries
    | EmptySortKey                            // output writer: no first code point to bucket by
    | EmptyLetterGroup                        // output writer: first character of an empty group
    | NullCsvField                            // CSV dump: a null key or translation text

  datatype Result<+T> = Ok(value: T) | Err(failure: Failure) {
    predicate IsFailure() {
      Err?
    }

    function PropagateFailure<U>(): Result<U>
      requires Err?
    {
      Err(failure)
    }

    function Extract(): T
      requires Ok?
    {
      value
    }
  }

  /** The position of the first failure from `from` on, or the length when there is none. */
  function FirstErr<T>(rs: seq<Result<T>>, from: nat): (k: nat)
    requires from <= |rs|
    ensures from <= k <= |rs|
    ensures forall i :: from <= i < k ==> rs[i].Ok?
    ensures k < |rs| ==> rs[k].Err?
    decreases |rs| - from
  {
    if from == |rs| || rs[from].Err? then from else FirstErr(rs, from + 1)
  }
}
