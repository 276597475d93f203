/** Failures raised by netCBS, and the Option/Result wrappers that carry them.
    Every exception the Python code raises becomes an `Err` with the check that fired. */
module Errors {

  datatype Option<+T> = None | Some(value: T)

  /** Why a call raised. The comments name the Python exception class. */
  datatype Error =
    | EmptyQuery                          // ValueError: blank query
    | BadFormat(format: string)           // ValueError: format_file not csv/parquet
    | EmptySegment                        // ValueError: a blank piece between "->"
    | TooFewSegments(count: nat)          // ValueError: at most two " -> " segments
    | MissingColumns(columns: seq<string>) // ValueError: required columns absent
    | NoAggregationVariables              // ValueError: "[...]" names nothing
    | Unpack(segment: string)             // ValueError: tuple unpacking of split("[")
    | NotAnInteger(text: string)          // ValueError: int() rejects the text
    | UnknownContext(base: string)        // ValueError: base not a known context
    | UnknownKey(key: string)             // KeyError: dictionary lookup of a context
    | InvalidTypes(base: string, ids: set<int>) // ValueError: codes outside the context
    | NoVersions(dir: string)             // ValueError: no versioned file in a folder
    | EmptyTypeList(path: string)         // SQL parser error: the hop's `IN ()` is empty
    | ReadFailed(path: string)            // the relationship file cannot be read

  datatype Result<+T> = Ok(value: T) | Err(error: Error) {
    predicate IsFailure() { Err? }

    function PropagateFailure<U>(): Result<U>
      requires Err?
    {
      Err(error)
    }

    function Extract(): T
      requires Ok?
    {
      value
    }
  }

  /** A Python loop that applies `f` to each item in turn and collects the
      results; the first item that raises stops it. */
  function MapEach<T, U>(items: seq<T>, f: T -> Result<U>): (r: Result<seq<U>>)
    ensures r.Ok? ==> |r.value| == |items|
    decreases |items|
  {
    if items == [] then Ok([])
    else
      var init :- MapEach(items[..|items| - 1], f);
      var last :- f(items[|items| - 1]);
      Ok(init + [last])
  }

  /** Result `i` is `f` of item `i`: the loop keeps the items' order. */
  lemma {:induction false} MapEachOrder<T, U>(items: seq<T>, f: T -> Result<U>)
    requires MapEach(items, f).Ok?
    ensures forall i :: 0 <= i < |items| ==> f(items[i]) == Ok(MapEach(items, f).value[i])
    decreases |items|
  {
    if items != [] {
      var init := items[..|items| - 1];
      MapEachOrder(init, f);
      assert forall i :: 0 <= i < |init| ==> items[i] == init[i];
    }
  }

  /** The loop runs to the end exactly when no item raises. */
  lemma {:induction false} MapEachOk<T, U>(items: seq<T>, f: T -> Result<U>)
    ensures MapEach(items, f).Ok? <==> forall i :: 0 <= i < |items| ==> f(items[i]).Ok?
    decreases |items|
  {
    if items != [] {
      var init := items[..|items| - 1];
      MapEachOk(init, f);
      assert forall i :: 0 <= i < |init| ==> items[i] == init[i];
    }
  }

  /** The loop raises what the first item that raises raises. */
  lemma {:induction false} MapEachFirstError<T, U>(items: seq<T>, f: T -> Result<U>, i: nat)
    requires i < |items| && f(items[i]).Err?
    requires forall k :: 0 <= k < i ==> f(items[k]).Ok?
    ensures MapEach(items, f) == Err(f(items[i]).error)
  {
    var prefix := items[..i + 1];
    assert prefix[..i] == items[..i];
    MapEachOk(items[..i], f);
    MapEachPrefixErr(items, f, i + 1);
  }

  /** Once the first items raise, the whole loop raises the same. */
  lemma {:induction false} MapEachPrefixErr<T, U>(items: seq<T>, f: T -> Result<U>, i: nat)
    requires i <= |items| && MapEach(items[..i], f).Err?
    ensures MapEach(items, f) == MapEach(items[..i], f)
    decreases |items| - i
  {
    if i < |items| {
      assert items[..i + 1][..i] == items[..i];
      MapEachPrefixErr(items, f, i + 1);
    } else {
      assert items[..i] == items;
    }
  }
}
