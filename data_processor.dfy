/** The DataProcessor service of lambda-function-3: a call counter and the
    key listing it returns for every payload. */
module DataProcessing {

  /** No key occurs twice, as in the keys of any dict. */
  predicate Distinct(keys: seq<string>)
  {
    forall i, j :: 0 <= i < j < |keys| ==> keys[i] != keys[j]
  }

  /** The keys of a dict, in insertion order. */
  type DictKeys = keys: seq<string> | Distinct(keys) witness []

  /** The payload handed to `process`: a dict, seen through its keys, or any
      other value. */
  datatype Payload = Dict(keys: DictKeys) | Other

  /** `list(data.keys())` for a dict, and the empty list otherwise. */
  function DataKeys(data: Payload): (keys: seq<string>)
    ensures Distinct(keys)
  {
    match data
    case Dict(keys) => keys
    case Other => []
  }

  /** The dict `process` returns. */
  datatype Processed = Processed(processed: bool, count: nat, dataKeys: seq<string>)

  class DataProcessor {
    var processedCount: nat
    /** Every payload processed so far, oldest first. */
    ghost var calls: seq<Payload>

    /** The counter is the number of calls made so far. */
    ghost predicate Valid()
      reads this
    {
      processedCount == |calls|
    }

    constructor()
      ensures Valid()
      ensures processedCount == 0 && calls == []
    {
      processedCount := 0;
      calls := [];
    }

    /** Count one more call and describe the payload. */
    method Process(data: Payload) returns (r: Processed)
      requires Valid()
      modifies this
      ensures Valid()
      ensures calls == old(calls) + [data]
      ensures processedCount == old(processedCount) + 1
      // the count reported is the number of calls so far, this one included
      ensures r.count == |calls| == processedCount
      ensures r.processed
      ensures r.dataKeys == DataKeys(data)
    {
      processedCount := processedCount + 1;
      calls := calls + [data];
      r := Processed(true, processedCount, DataKeys(data));
    }
  }

  /** The handler of lambda-function-3 builds a fresh processor for every
      invocation, so the count it reports is always 1. */
  method HandleEvent(event: Payload) returns (r: Processed)
    ensures r.processed && r.count == 1
    ensures r.dataKeys == DataKeys(event)
  {
    var processor := new DataProcessor();
    r := processor.Process(event);
  }
}
