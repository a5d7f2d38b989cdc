/**
 * Ranged retrieval, as both sample services implement it: a textual range
 * `"<start>:<end>"` is split on `:` and each field is read as a Java `long`;
 * a malformed range fails before the storage client is called, an absent or
 * empty range asks for the whole object, and a well-formed range is handed
 * to the client unchanged, without any ordering check. The AWS sample lets
 * negative bounds through as well; jclouds' `GetOptions.range` rejects them.
 */
module RangeGet {
  import opened Common
  import opened Text
  import opened JavaLang

  /** What a get asks the storage client for. */
  datatype GetRequest = Whole | Bytes(start: int, end: int)

  /**
   * The range check both `get(..., range)` variants perform before calling
   * the storage client.
   */
  function ParseRange(range: Option<string>): (r: Result<GetRequest>)
    ensures r.Err? ==> r.error == InvalidRangeFormat || r.error == InvalidRangeSpecified
    ensures r.Ok? && r.value.Bytes? ==> InLongRange(r.value.start) && InLongRange(r.value.end)
    ensures r.Ok? && r.value.Bytes? ==> range.Some? && ':' in range.value
  {
    match range
    case None => Ok(Whole)
    case Some(text) =>
      if text == "" then Ok(Whole)
      else
        var fields := JavaSplit(text, ':');
        if |fields| != 2 then Err(InvalidRangeFormat)
        else
          match (ParseLong(fields[0]), ParseLong(fields[1]))
          case (Some(start), Some(end)) => Ok(Bytes(start, end))
          case _ => Err(InvalidRangeSpecified)
  }

  /** The field count is checked first: anything but two fields is a format error. */
  lemma FormatErrorExactly(text: string)
    requires text != ""
    ensures ParseRange(Some(text)) == Err(InvalidRangeFormat) <==> |JavaSplit(text, ':')| != 2
  {
  }

  /** A range printed from two `long`s parses back to exactly those values, in any order and of any sign. */
  lemma RangeRoundTrip(start: int, end: int)
    requires InLongRange(start) && InLongRange(end)
    ensures ParseRange(Some(FormatLong(start) + ":" + FormatLong(end))) == Ok(Bytes(start, end))
  {
    FormatLongShape(start);
    FormatLongShape(end);
    JavaSplitTwo(FormatLong(start), ':', FormatLong(end));
    ParseFormatLong(start);
    ParseFormatLong(end);
  }

  /** A separator after the second field is dropped with the empty field it closes: `"10:20:"` is accepted. */
  lemma TrailingSeparatorAccepted(start: int, end: int)
    requires InLongRange(start) && InLongRange(end)
    ensures ParseRange(Some(FormatLong(start) + ":" + FormatLong(end) + ":")) == Ok(Bytes(start, end))
  {
    FormatLongShape(start);
    FormatLongShape(end);
    JavaSplitTwoTrailing(FormatLong(start), ':', FormatLong(end));
    ParseFormatLong(start);
    ParseFormatLong(end);
  }

  /** One field, with or without a trailing separator, is a format error: `"10"` and `"10:"` are rejected. */
  lemma SingleFieldRejected(field: string)
    requires field != "" && ':' !in field
    ensures ParseRange(Some(field)) == Err(InvalidRangeFormat)
    ensures ParseRange(Some(field + ":")) == Err(InvalidRangeFormat)
  {
    JavaSplitOneTrailing(field, ':');
  }

  /** Two fields of which one is not a `long` are a range error, not a format error. */
  lemma NonNumericFieldRejected(a: string, b: string)
    requires ':' !in a && ':' !in b && b != ""
    requires ParseLong(a).None? || ParseLong(b).None?
    ensures ParseRange(Some(a + ":" + b)) == Err(InvalidRangeSpecified)
  {
    JavaSplitTwo(a, ':', b);
  }

  /**
   * Any two fields `Long.parseLong` accepts, joined by one separator, make a
   * ranged request for exactly the parsed values; leading zeros and signs
   * included.
   */
  lemma ParsedFieldsPassed(a: string, b: string, x: int, y: int)
    requires ':' !in a && ':' !in b
    requires ParseLong(a) == Some(x) && ParseLong(b) == Some(y)
    ensures ParseRange(Some(a + ":" + b)) == Ok(Bytes(x, y))
  {
    JavaSplitTwo(a, ':', b);
  }

  /** The examples the range format is documented with. */
  lemma RangeExamples()
    ensures ParseRange(Some("abc:10")) == Err(InvalidRangeSpecified)
    ensures ParseRange(Some("10")) == Err(InvalidRangeFormat)
    ensures ParseRange(None) == Ok(Whole) && ParseRange(Some("")) == Ok(Whole)
  {
    assert "abc:10" == "abc" + ":" + "10";
    NonNumericFieldRejected("abc", "10");
    SingleFieldRejected("10");
  }

  // ---------------------------------------------------------------------
  // The two get operations
  // ---------------------------------------------------------------------

  /** The one storage-client call a get can make. */
  datatype GetCall = GetObject(bucket: string, key: string, request: GetRequest)

  /** The calls a get made and what it returned or threw. */
  datatype GetOutcome = GetOutcome(calls: seq<GetCall>, result: Result<seq<byte>>)

  /**
   * `get(fileName, range)` of the AWS sample. `reply` is what the client's
   * `getObject` returns (the object's content) or throws.
   */
  function AwsGet(bucket: string, fileName: string, range: Option<string>, reply: Result<seq<byte>>): (o: GetOutcome)
    ensures ParseRange(range).Err? ==> o.calls == [] && o.result == Err(ParseRange(range).error)
    ensures ParseRange(range).Ok? ==>
              o.calls == [GetObject(bucket, fileName, ParseRange(range).value)] && o.result == reply
  {
    match ParseRange(range)
    case Err(e) => GetOutcome([], Err(e))
    case Ok(request) => GetOutcome([GetObject(bucket, fileName, request)], reply)
  }

  /**
   * A request jclouds' `GetOptions.range(start, end)` builds: it checks
   * `start >= 0` and `end >= 0` and throws `IllegalArgumentException`
   * otherwise.
   */
  predicate JcloudsAccepts(request: GetRequest) {
    request.Whole? || (request.start >= 0 && request.end >= 0)
  }

  /**
   * `get(file, range)` of the jclouds sample. `reply` is what the client's
   * `getBlob` returns or throws; `Ok(None)` is the `null` it returns for a
   * missing blob, whose payload the service then dereferences. A negative
   * bound fails in `range(start, end)`, before `getBlob`, with an exception
   * the `catch` of `NumberFormatException` does not catch.
   */
  function JcloudsGet(bucket: string, fileId: string, range: Option<string>, reply: Result<Option<seq<byte>>>): (o: GetOutcome)
    ensures ParseRange(range).Err? ==> o.calls == [] && o.result == Err(ParseRange(range).error)
    ensures ParseRange(range).Ok? && !JcloudsAccepts(ParseRange(range).value) ==>
              o.calls == [] && o.result == Err(IllegalArgument)
    ensures ParseRange(range).Ok? && JcloudsAccepts(ParseRange(range).value) ==>
              && o.calls == [GetObject(bucket, fileId, ParseRange(range).value)]
              && (o.result.Ok? <==> reply.Ok? && reply.value.Some?)
              && (o.result.Ok? ==> o.result.value == reply.value.value)
              && (reply.Err? ==> o.result == Err(reply.error))
              && (reply == Ok(None) ==> o.result == Err(NullPointer))
    ensures reply == Ok(None) ==> o.result.Err?
  {
    match ParseRange(range)
    case Err(e) => GetOutcome([], Err(e))
    case Ok(request) =>
      if !JcloudsAccepts(request) then GetOutcome([], Err(IllegalArgument))
      else
        var result := match reply
          case Err(e) => Err(e)
          case Ok(None) => Err(NullPointer)
          case Ok(Some(content)) => Ok(content);
        GetOutcome([GetObject(bucket, fileId, request)], result)
  }

  /**
   * The two samples validate the range format identically. When the client
   * returns the content, they behave the same exactly when the range has no
   * negative bound; on a negative bound the AWS sample makes the request and
   * jclouds makes none.
   */
  lemma SamplesAgreeOnGet(bucket: string, key: string, range: Option<string>, content: seq<byte>)
    ensures AwsGet(bucket, key, range, Ok(content)) == JcloudsGet(bucket, key, range, Ok(Some(content)))
        <==> !(ParseRange(range).Ok? && !JcloudsAccepts(ParseRange(range).value))
    ensures ParseRange(range).Ok? && !JcloudsAccepts(ParseRange(range).value) ==>
              |AwsGet(bucket, key, range, Ok(content)).calls| == 1
              && JcloudsGet(bucket, key, range, Ok(Some(content))).calls == []
  {
  }

  /** jclouds rejects a printed range with a negative bound before calling `getBlob`. */
  lemma JcloudsNegativeRejected(bucket: string, key: string, start: int, end: int, reply: Result<Option<seq<byte>>>)
    requires InLongRange(start) && InLongRange(end)
    requires start < 0 || end < 0
    ensures JcloudsGet(bucket, key, Some(FormatLong(start) + ":" + FormatLong(end)), reply)
         == GetOutcome([], Err(IllegalArgument))
  {
    RangeRoundTrip(start, end);
  }

  /** A valid range reaches the client as exactly the two parsed values. */
  lemma RangedGetPassesValues(bucket: string, key: string, start: int, end: int, reply: Result<seq<byte>>)
    requires InLongRange(start) && InLongRange(end)
    ensures AwsGet(bucket, key, Some(FormatLong(start) + ":" + FormatLong(end)), reply).calls
         == [GetObject(bucket, key, Bytes(start, end))]
  {
    RangeRoundTrip(start, end);
  }
}
