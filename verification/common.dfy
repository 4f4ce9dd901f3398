/**
 The shared vocabulary of the model: the parsed Office 365 endpoint record, the
 Python exceptions the modelled code can raise, and a failure-compatible Result.
 */
module Common {

  /** A JSON object member that may be missing, present with `null`, or present with a value.
      The distinction matters where the code tests key presence (`"urls" in item`) rather
      than the value. */
  datatype Field<+T> = Absent | Null | Present(value: T)

  datatype Option<+T> = None | Some(value: T)

  /** One element of the Office 365 "worldwide endpoints" response.
      `serviceAreaDisplayName` is None when the key is missing.
      `ips` is None when the key is missing or null: every reader of it goes through
      `item.get("ips")`, which folds the two cases together. */
  datatype Record = Record(
    serviceAreaDisplayName: Option<string>,
    ips: Option<seq<string>>,
    urls: Field<seq<string>>)

  /** The exceptions the modelled code raises, named after the Python exception. */
  datatype Error =
    | KeyError(key: string)              // subscript of a missing dictionary key
    | AttributeError(attribute: string)  // read of an instance attribute never assigned
    | NotIterable                        // `for x in None` (a TypeError in Python)
    | EmptyPathError                     // os.path.relpath("") raises ValueError
    | DestinationMissing                 // download() with an empty destination
    | NoSuchDirectory(path: string)      // os.makedirs of the empty directory name
    | JsonDecodeError                    // json.loads of a malformed document

  datatype Result<+T> = Ok(value: T) | Err(error: Error) {
    predicate IsFailure() {
      Err?
    }

    function PropagateFailure<U>(): Result<U>
      requires Err?
    {
      Err(error)
    }

    function Extract(): T
      requires Ok?
    {
      value
    }
  }

  /** The concatenation of a sequence of lists, in order. */
  function Concat<T>(xss: seq<seq<T>>): (r: seq<T>)
  {
    if |xss| == 0 then [] else Concat(xss[..|xss| - 1]) + xss[|xss| - 1]
  }

  /** The sum of the lengths of a sequence of lists. */
  function TotalLength<T>(xss: seq<seq<T>>): nat
  {
    if |xss| == 0 then 0 else TotalLength(xss[..|xss| - 1]) + |xss[|xss| - 1]|
  }

  lemma {:induction false} ConcatLength<T>(xss: seq<seq<T>>)
    ensures |Concat(xss)| == TotalLength(xss)
  {
    if |xss| > 0 {
      ConcatLength(xss[..|xss| - 1]);
    }
  }

  lemma ConcatSnoc<T>(xss: seq<seq<T>>, xs: seq<T>)
    ensures Concat(xss + [xs]) == Concat(xss) + xs
  {
    assert (xss + [xs])[..|xss|] == xss;
  }
}
