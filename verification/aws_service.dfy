/**
 * The listing and deletion operations of the AWS sample. `get()` lists the
 * bucket once and then fetches every object on that one listing page, in
 * listing order (later pages are never requested); the first
 * exception, from the listing or from any fetch, ends it. `delete` forwards
 * one deletion to the client.
 */
module AwsService {
  import opened Common
  import opened RangeGet

  /** A call the list and delete operations make on the S3 client. */
  datatype ClientCall =
    | ListObjects(bucket: string)
    | Fetch(get: GetCall)
    | DeleteObject(bucket: string, key: string)

  /** An object returned by `get()`: its key and its content. */
  datatype StoredObject = StoredObject(key: string, content: seq<byte>)

  /**
   * `get()`: `listing` is what the one `listObjects` call returns (the keys
   * of its first page, in order) or throws, and `fetch(k)` what `getObject` returns or throws for
   * key `k`. It succeeds with one object per listed key, in listing order,
   * exactly when the listing and every fetch succeed; otherwise it fails
   * with the first exception, after fetching the keys up to the failing one.
   */
  method ListAll(bucket: string, listing: Result<seq<string>>, fetch: string -> Result<seq<byte>>)
    returns (calls: seq<ClientCall>, result: Result<seq<StoredObject>>)
    ensures listing.Err? ==> calls == [ListObjects(bucket)] && result == Err(listing.error)
    ensures listing.Ok? ==>
              (result.Ok? <==> forall j :: 0 <= j < |listing.value| ==> fetch(listing.value[j]).Ok?)
    ensures result.Ok? ==>
              && |result.value| == |listing.value|
              && calls == [ListObjects(bucket)] + seq(|listing.value|, j requires 0 <= j < |listing.value| =>
                                                       Fetch(GetObject(bucket, listing.value[j], Whole)))
              && forall j :: 0 <= j < |listing.value| ==>
                   result.value[j] == StoredObject(listing.value[j], fetch(listing.value[j]).value)
    ensures result.Ok? ==>
              forall j :: 0 <= j < |listing.value| ==>
                AwsGet(bucket, listing.value[j], None, fetch(listing.value[j]))
                == GetOutcome([GetObject(bucket, listing.value[j], Whole)], Ok(result.value[j].content))
    ensures listing.Ok? && result.Err? ==>
              exists n :: 0 <= n < |listing.value| && FirstFailure(listing.value, fetch, n)
                && result.error == fetch(listing.value[n]).error
                && calls == [ListObjects(bucket)] + seq(n + 1, j requires 0 <= j <= n =>
                                                       Fetch(GetObject(bucket, listing.value[j], Whole)))
  {
    calls := [ListObjects(bucket)];
    if listing.Err? {
      return calls, Err(listing.error);
    }
    var keys := listing.value;
    var objs: seq<StoredObject> := [];
    var j := 0;
    while j < |keys|
      invariant 0 <= j <= |keys|
      invariant |objs| == j
      invariant forall m :: 0 <= m < j ==> fetch(keys[m]).Ok?
      invariant forall m :: 0 <= m < j ==> objs[m] == StoredObject(keys[m], fetch(keys[m]).value)
      invariant calls == [ListObjects(bucket)] + seq(j, m requires 0 <= m < j => Fetch(GetObject(bucket, keys[m], Whole)))
    {
      calls := calls + [Fetch(GetObject(bucket, keys[j], Whole))];
      var reply := fetch(keys[j]);
      if reply.Err? {
        assert FirstFailure(keys, fetch, j);
        return calls, Err(reply.error);
      }
      objs := objs + [StoredObject(keys[j], reply.value)];
      j := j + 1;
    }
    return calls, Ok(objs);
  }

  /** `n` is the first listed key whose fetch throws. */
  predicate FirstFailure(keys: seq<string>, fetch: string -> Result<seq<byte>>, n: nat)
    requires n < |keys|
  {
    fetch(keys[n]).Err? && forall m :: 0 <= m < n ==> fetch(keys[m]).Ok?
  }

  /** `delete(fileName)`: one deletion, whose exception, if any, is rethrown. */
  function Delete(bucket: string, fileName: string, reply: Result<()>): (o: (seq<ClientCall>, Result<()>))
    ensures o.0 == [DeleteObject(bucket, fileName)]
    ensures o.1.Err? <==> reply.Err?
    ensures o.1 == reply
  {
    ([DeleteObject(bucket, fileName)], reply)
  }
}
