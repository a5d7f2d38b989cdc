# blobstore-samples, modelled in Dafny

This project models the storage logic of the Predix blobstore samples. The samples are three small services that store files in an S3-compatible object store:

- **AWS sample** (`BlobstoreService` over the AWS SDK):
  - `put` streams an object into a multipart upload. It reads the stream one byte at a time into a buffer and uploads the buffer as the next numbered part each time it holds 50 MiB.
  - At the end of the stream `put` either falls back to a single put, for a small object without any full part, or uploads the remainder and completes the session.
  - Any exception inside the `try` aborts the session.
  - `get(file, range)` checks a textual range `start:end` and then fetches the object.
  - `get()` lists the bucket once and fetches every object on the page that listing returns.
  - `delete` removes one object.
- **jclouds sample** (`BlobstoreService` over jclouds):
  - the same range check and get;
  - `put` of a `BlobFile` as one multipart `putBlob`;
  - a listing into metadata-only `BlobFile`s;
  - `delete`;
  - `getObjectACL`, which, as written, removes the blob.
  - `BlobstoreServiceInfoCreator` builds the service description from Cloud Foundry service data. It also recognises the service by the prefix of its name.
- **Go sample**:
  - the AWS signature version 2 signer (`SignV2`), with request preparation, the string to sign, the canonical `x-amz-*` headers and the canonical resource;
  - the choice of region and addressing style from the endpoint.

How the model is built:

- **Storage clients.** A client is modelled by the calls the service makes on it. Its exceptions are modelled by an oracle that maps each position in the call trace to the exception the call at that position throws.
- **AWS `put`.** `put` has a reference definition on whole sequences, `AwsPut.PutSpec`. Its byte-at-a-time loop is a method, `AwsPut.Put`, that is proved equal to that reference on every input and every oracle.
- **Go header map.** Go's `http.Header` is an association list with distinct keys. The list's order stands for the map's iteration order, and the canonical headers are proved independent of it.
- **Crypto and time.** HMAC-SHA1 with base64 is a function parameter `sign(secret, text)`. The formatted current time is a parameter `date`.

Behaviour of the code worth noting:

- **Abort failure.** An abort that itself fails replaces the original exception (AWS `BlobstoreService.java`, lines 143-146).
- **Fallback failure.** A failing single put after the fallback aborts the session a second time (line 122, then line 143).
- **Completion failure.** A failing `completeMultipartUpload` is not followed by an abort, because line 154 is outside the `try`.
- **Range values.** Neither sample checks the order of the range bounds. The AWS sample passes any signed `long` through. jclouds' `GetOptions.range`, called at line 137 of the jclouds `BlobstoreService.java`, rejects a negative bound with an `IllegalArgumentException` before `getBlob`.

## Model

| member | source | states |
|---|---|---|
| Chunking.ChunksReassemble | blobstore-aws-sample/src/main/java/com/ge/predix/sample/blobstore/repository/BlobstoreService.java:89-105 | the full parts the read loop cuts, followed by the bytes left in the buffer, are exactly the stream's bytes |
| Chunking.ChunksCount | blobstore-aws-sample/src/main/java/com/ge/predix/sample/blobstore/repository/BlobstoreService.java:89-105 | the stream length is the number of full parts times the part size plus the length of the remainder |
| Chunking.ChunksUnique | blobstore-aws-sample/src/main/java/com/ge/predix/sample/blobstore/repository/BlobstoreService.java:89-105 | cutting inverts reassembly: full-sized parts followed by a shorter remainder are cut back into the same parts and remainder |
| Chunking.ChunksAppendByte | blobstore-aws-sample/src/main/java/com/ge/predix/sample/blobstore/repository/BlobstoreService.java:89-104 | one more byte either completes a part made of the old buffer plus that byte, leaving the buffer empty, or only extends the buffer |
| Chunking.ChunksOfPrefix | blobstore-aws-sample/src/main/java/com/ge/predix/sample/blobstore/repository/BlobstoreService.java:89-105 | the parts cut from a prefix of the stream are the first parts cut from the whole stream |
| Chunking.ChunksOfMultiple | blobstore-aws-sample/src/main/java/com/ge/predix/sample/blobstore/repository/BlobstoreService.java:89-105 | a stream of exactly k part sizes gives k full parts and an empty buffer |
| AwsPut.LastPartSize | blobstore-aws-sample/src/main/java/com/ge/predix/sample/blobstore/repository/BlobstoreService.java:86-104 | at the end of the stream `currentPartSize` is the buffer length, or a full part size with an empty buffer when it was not reset after the last flush |
| AwsPut.Run | blobstore-aws-sample/src/main/java/com/ge/predix/sample/blobstore/repository/BlobstoreService.java:83-147 | the calls made are a prefix of the planned calls; all of them are made exactly when no position fails, and otherwise the run stops at the first failing call with that call's exception |
| AwsPut.RunAppend | blobstore-aws-sample/src/main/java/com/ge/predix/sample/blobstore/repository/BlobstoreService.java:83-140 | running two plans one after the other is running the first, then the second from the next trace position |
| AwsPut.RunAppendThrown | blobstore-aws-sample/src/main/java/com/ge/predix/sample/blobstore/repository/BlobstoreService.java:83-141 | once a call has thrown, the calls planned after it are never made |
| AwsPut.RunFirstFailure | blobstore-aws-sample/src/main/java/com/ge/predix/sample/blobstore/repository/BlobstoreService.java:83-141 | a run whose first failing position is k makes the planned calls up to and including k and throws k's exception |
| AwsPut.ReadParts | blobstore-aws-sample/src/main/java/com/ge/predix/sample/blobstore/repository/BlobstoreService.java:85-106 | the byte loop makes exactly the reference's full-part uploads; without a failure it leaves the remainder in the buffer, the next part number in `i`, the reference size in `currentPartSize` and every upload's tag in the tag list |
| AwsPut.ReadByte | blobstore-aws-sample/src/main/java/com/ge/predix/sample/blobstore/repository/BlobstoreService.java:89-105 | one loop iteration takes the loop's state for a prefix to its state for the prefix plus one byte |
| AwsPut.StepFull | blobstore-aws-sample/src/main/java/com/ge/predix/sample/blobstore/repository/BlobstoreService.java:92-104 | the byte that fills the buffer uploads it as part `i`, declared as a full part; on success the tag is recorded, `i` advances and the buffer is emptied |
| AwsPut.StepPartial | blobstore-aws-sample/src/main/java/com/ge/predix/sample/blobstore/repository/BlobstoreService.java:89-91 | a byte that does not fill the buffer makes no call and only extends the buffer |
| AwsPut.StopsEarly | blobstore-aws-sample/src/main/java/com/ge/predix/sample/blobstore/repository/BlobstoreService.java:89-106 | after an upload has thrown, the bytes not yet read make no difference to the calls |
| AwsPut.CloseParts | blobstore-aws-sample/src/main/java/com/ge/predix/sample/blobstore/repository/BlobstoreService.java:107-140 | after the loop, the method makes the reference's closing calls: abort and single put, upload of the remainder as the last part, or nothing |
| AwsPut.Try | blobstore-aws-sample/src/main/java/com/ge/predix/sample/blobstore/repository/BlobstoreService.java:83-147 | the `try` block makes the reference body's calls and ends with its exception; without one it returns the tags of every uploaded part and whether the single put was taken |
| AwsPut.Put | blobstore-aws-sample/src/main/java/com/ge/predix/sample/blobstore/repository/BlobstoreService.java:72-155 | `put` makes exactly the reference trace and ends with the reference outcome; a null object fails with "File is null" before any call, and a failing initiate is the only call made |
| AwsPutProperties.BodyAsRun | blobstore-aws-sample/src/main/java/com/ge/predix/sample/blobstore/repository/BlobstoreService.java:83-140 | when the stream ends normally, the `try` block is the full-part uploads followed by the closing calls, run against the oracle |
| AwsPutProperties.FreeTrace | blobstore-aws-sample/src/main/java/com/ge/predix/sample/blobstore/repository/BlobstoreService.java:72-155 | without failures, `put` initiates, makes every planned call and completes with their tags, except after the single-put fallback |
| AwsPutProperties.SmallInputSingleShot | blobstore-aws-sample/src/main/java/com/ge/predix/sample/blobstore/repository/BlobstoreService.java:112-123 | an object below the minimum size is stored by one put of all its bytes, declared with its length, after the session is aborted, and nothing completes |
| AwsPutProperties.LargeInputCompletes | blobstore-aws-sample/src/main/java/com/ge/predix/sample/blobstore/repository/BlobstoreService.java:85-154 | an object of at least the minimum size is uploaded as parts 1..n that together hold exactly its bytes, and the completion lists every part in order with its upload's tag |
| AwsPutProperties.LargePlanShape | blobstore-aws-sample/src/main/java/com/ge/predix/sample/blobstore/repository/BlobstoreService.java:85-140 | the planned calls of a multipart upload are uploads numbered 1, 2, ... whose data laid end to end is the object |
| AwsPutProperties.ExactMultipleUploadsEmptyPart | blobstore-aws-sample/src/main/java/com/ge/predix/sample/blobstore/repository/BlobstoreService.java:126-139 | as written, an object of exactly k full parts is followed by an empty part k+1 declared as a full part |
| AwsPutProperties.ExactMultipleExample | blobstore-aws-sample/src/main/java/com/ge/predix/sample/blobstore/repository/BlobstoreService.java:92-139 | with the sample's sizes, 100 MiB of zeros makes a third, empty upload declared as 50 MiB |
| AwsPutProperties.CorrectedPartsExact | blobstore-aws-sample/src/main/java/com/ge/predix/sample/blobstore/repository/BlobstoreService.java:104-139 | with `currentPartSize` reset on a flush, every uploaded part is non-empty and declares its true size, and there is one part per full part plus one for a non-empty remainder |
| AwsPutProperties.TryFailureAborts | blobstore-aws-sample/src/main/java/com/ge/predix/sample/blobstore/repository/BlobstoreService.java:141-146 | a failure of any call inside the `try` stops the calls there, is followed by one abort and no completion, and reaches the caller unless the abort throws too |
| AwsPutProperties.FallbackFailureAbortsTwice | blobstore-aws-sample/src/main/java/com/ge/predix/sample/blobstore/repository/BlobstoreService.java:112-146 | a failing single put after the fallback is followed by a second abort of the same session |
| AwsPutProperties.ReadErrorAborts | blobstore-aws-sample/src/main/java/com/ge/predix/sample/blobstore/repository/BlobstoreService.java:89-146 | for any oracle under which the initiate and the full-part uploads succeed, a stream that throws leaves its full parts uploaded, then the session is aborted and the stream's exception is rethrown, unless the abort itself throws and replaces it |
| AwsPutProperties.CompleteFailureNotAborted | blobstore-aws-sample/src/main/java/com/ge/predix/sample/blobstore/repository/BlobstoreService.java:148-154 | a failing completion, outside the `try`, is not followed by an abort and reaches the caller |
| AwsPutProperties.SessionClosed | blobstore-aws-sample/src/main/java/com/ge/predix/sample/blobstore/repository/BlobstoreService.java:81-154 | once initiated, every session ends with an abort, a completion, or a single put right after an abort, and `put` succeeds only through a completion or that single put |
| JavaLang.JavaSplit | blobstore-aws-sample/src/main/java/com/ge/predix/sample/blobstore/repository/BlobstoreService.java:166 | `split(":")` gives separator-free fields whose last one is non-empty, since trailing empty fields are dropped, whenever the text holds the separator |
| JavaLang.JavaSplitTwo | blobstore-aws-sample/src/main/java/com/ge/predix/sample/blobstore/repository/BlobstoreService.java:166-167 | two fields joined by the separator split back into exactly those two fields |
| JavaLang.JavaSplitTwoTrailing | blobstore-aws-sample/src/main/java/com/ge/predix/sample/blobstore/repository/BlobstoreService.java:166-167 | a trailing separator after two fields is dropped with the empty field it closes |
| JavaLang.JavaSplitOneTrailing | blobstore-aws-sample/src/main/java/com/ge/predix/sample/blobstore/repository/BlobstoreService.java:166-167 | one field and a separator split into that field alone |
| JavaLang.ParseLong | blobstore-aws-sample/src/main/java/com/ge/predix/sample/blobstore/repository/BlobstoreService.java:172-173 | an accepted field is an optional sign followed by digits, and its value lies in the `long` range |
| JavaLang.ParseLongComplete | blobstore-aws-sample/src/main/java/com/ge/predix/sample/blobstore/repository/BlobstoreService.java:172-173 | every optional sign followed by at least one digit is accepted with its signed value when that value is a `long`, leading zeros and `-0` included, and rejected otherwise |
| JavaLang.ParseFormatLong | blobstore-aws-sample/src/main/java/com/ge/predix/sample/blobstore/repository/BlobstoreService.java:172-173 | parsing inverts printing on every `long` and rejects the printed form of every value outside that range |
| JavaLang.DigitsRoundTrip | blobstore-aws-sample/src/main/java/com/ge/predix/sample/blobstore/repository/BlobstoreService.java:172-173 | reading back the decimal digits of n gives n |
| JavaLang.ParsePlusSign | blobstore-aws-sample/src/main/java/com/ge/predix/sample/blobstore/repository/BlobstoreService.java:172 | an explicit `+` sign is accepted and changes nothing |
| RangeGet.ParseRange | blobstore-aws-sample/src/main/java/com/ge/predix/sample/blobstore/repository/BlobstoreService.java:165-185 | the only errors are the format error and the range error; an accepted range has two `long` values and came from a text holding the separator |
| RangeGet.FormatErrorExactly | blobstore-aws-sample/src/main/java/com/ge/predix/sample/blobstore/repository/BlobstoreService.java:166-169 | a non-empty range is a format error exactly when it does not split into two fields |
| RangeGet.RangeRoundTrip | blobstore-aws-sample/src/main/java/com/ge/predix/sample/blobstore/repository/BlobstoreService.java:166-176 | a range printed from any two `long`s, in any order and of any sign, parses back to exactly those values |
| RangeGet.TrailingSeparatorAccepted | blobstore-aws-sample/src/main/java/com/ge/predix/sample/blobstore/repository/BlobstoreService.java:166-173 | `start:end:` is accepted as `start:end` |
| RangeGet.SingleFieldRejected | blobstore-aws-sample/src/main/java/com/ge/predix/sample/blobstore/repository/BlobstoreService.java:166-169 | one field, with or without a trailing separator, is a format error |
| RangeGet.ParsedFieldsPassed | blobstore-aws-sample/src/main/java/com/ge/predix/sample/blobstore/repository/BlobstoreService.java:171-177 | any two fields `parseLong` accepts, joined by one separator, give a ranged request for exactly the parsed values |
| RangeGet.NonNumericFieldRejected | blobstore-aws-sample/src/main/java/com/ge/predix/sample/blobstore/repository/BlobstoreService.java:171-185 | two fields of which one is not a `long` are a range error, not a format error |
| RangeGet.RangeExamples | blobstore-aws-sample/src/main/java/com/ge/predix/sample/blobstore/repository/BlobstoreService.java:165-188 | `abc:10` is a range error, `10` a format error, and an absent or empty range asks for the whole object |
| RangeGet.AwsGet | blobstore-aws-sample/src/main/java/com/ge/predix/sample/blobstore/repository/BlobstoreService.java:163-199 | a malformed range fails with its own error and no client call; otherwise exactly one fetch of the named object in the service's bucket, with the parsed request, is made and its reply is returned unchanged |
| RangeGet.RangedGetPassesValues | blobstore-aws-sample/src/main/java/com/ge/predix/sample/blobstore/repository/BlobstoreService.java:172-177 | a valid range reaches the client as exactly the two parsed values |
| RangeGet.JcloudsGet | blobstore-jclouds-sample/src/main/java/com/ge/predix/sample/blobstore/repository/BlobstoreService.java:125-154 | a malformed range fails with its own error and no client call; a negative bound fails in `range(start, end)` with an argument error and no client call; otherwise exactly one `getBlob` with the parsed request, which succeeds exactly when the client returns a blob, rethrows the client's exception, and fails with a null-pointer exception on a null blob |
| RangeGet.JcloudsNegativeRejected | blobstore-jclouds-sample/src/main/java/com/ge/predix/sample/blobstore/repository/BlobstoreService.java:133-141 | a range with a negative bound makes no `getBlob` call and throws the argument error |
| RangeGet.SamplesAgreeOnGet | blobstore-jclouds-sample/src/main/java/com/ge/predix/sample/blobstore/repository/BlobstoreService.java:125-154 | with the client returning the content, the two samples behave the same exactly when the range has no negative bound; on a negative bound only the AWS sample calls the client |
| AwsService.ListAll | blobstore-aws-sample/src/main/java/com/ge/predix/sample/blobstore/repository/BlobstoreService.java:208-225 | the listing succeeds exactly when the listing and every fetch succeed, with one object per listed key in listing order; otherwise it rethrows the first exception after fetching up to the failing key |
| AwsService.Delete | blobstore-aws-sample/src/main/java/com/ge/predix/sample/blobstore/repository/BlobstoreService.java:233-242 | one deletion of the named object, returning exactly the client's result and rethrowing its exception |
| JcloudsService.CreateBlobFile | blobstore-jclouds-sample/src/main/java/com/ge/predix/sample/blobstore/repository/BlobstoreService.java:73-75 | the new file lies in the service's bucket and carries the service's URL with the given id, name and stream |
| JcloudsService.Put | blobstore-jclouds-sample/src/main/java/com/ge/predix/sample/blobstore/repository/BlobstoreService.java:84-117 | a null file fails with "File is null" and a null stream with a null-pointer exception, both before any call; otherwise exactly one multipart `putBlob` into the service's bucket of a blob named by the file's id, with the file's bytes, its name as disposition, the byte count as length and the given content type; it succeeds exactly when the store does and otherwise rethrows the store's exception |
| JcloudsService.CreatedFileIsStored | blobstore-jclouds-sample/src/main/java/com/ge/predix/sample/blobstore/repository/BlobstoreService.java:84-98 | a created file is stored under its id with all its bytes, its name as disposition and its length as content length |
| JcloudsService.ListFiles | blobstore-jclouds-sample/src/main/java/com/ge/predix/sample/blobstore/repository/BlobstoreService.java:161-185 | one listing call; a null listing gives an empty list; the listing succeeds exactly when every blob has a URI, with one content-less file per blob in order |
| JcloudsService.ToFiles | blobstore-jclouds-sample/src/main/java/com/ge/predix/sample/blobstore/repository/BlobstoreService.java:171-174 | each blob becomes a file named and identified by the blob's name, and a blob without a URI fails the whole listing |
| JcloudsService.ListedFileDeletesItsBlob | blobstore-jclouds-sample/src/main/java/com/ge/predix/sample/blobstore/repository/BlobstoreService.java:193-202 | deleting a listed file removes the blob it was listed for |
| JcloudsService.Delete | blobstore-jclouds-sample/src/main/java/com/ge/predix/sample/blobstore/repository/BlobstoreService.java:193-202 | one removal of the file's id with the store's result; a null file fails before any call |
| JcloudsService.GetObjectAcl | blobstore-jclouds-sample/src/main/java/com/ge/predix/sample/blobstore/repository/BlobstoreService.java:208-217 | as written, it removes the file's blob |
| JcloudsService.GetObjectAclDeletes | blobstore-jclouds-sample/src/main/java/com/ge/predix/sample/blobstore/repository/BlobstoreService.java:208-217 | as written, `getObjectACL` is indistinguishable from `delete` on every input |
| JcloudsService.GetObjectAclCorrected | blobstore-jclouds-sample/src/main/java/com/ge/predix/sample/blobstore/repository/BlobstoreService.java:204-212 | one read of the blob's ACL whose reply is returned; a null file fails before any call |
| JcloudsService.AclReadKeepsBlob | blobstore-jclouds-sample/src/main/java/com/ge/predix/sample/blobstore/repository/BlobstoreService.java:208-217 | the sample's `getObjectACL` removes the blob, while reading the ACL removes nothing |
| JcloudsService.SamplesAgreeOnDelete | blobstore-jclouds-sample/src/main/java/com/ge/predix/sample/blobstore/repository/BlobstoreService.java:193-202 | the AWS and jclouds deletes of the same key each make one removal from the same bucket and report the same result |
| ServiceInfo.FirstToken | blobstore-jclouds-sample/src/main/java/com/ge/predix/sample/blobstore/connector/cloudfoundry/BlobstoreServiceInfoCreator.java:62-66 | the protocol holds no `:` or `/`, and it is empty exactly when the URL holds nothing but delimiters |
| ServiceInfo.FirstTokenOf | blobstore-jclouds-sample/src/main/java/com/ge/predix/sample/blobstore/connector/cloudfoundry/BlobstoreServiceInfoCreator.java:62-66 | a non-empty delimiter-free word followed by a delimiter, or by nothing, is the first token |
| ServiceInfo.CreateServiceInfo | blobstore-jclouds-sample/src/main/java/com/ge/predix/sample/blobstore/connector/cloudfoundry/BlobstoreServiceInfoCreator.java:50-75 | fails with a null-pointer exception exactly when the credentials or their URL are missing; otherwise copies id, keys and bucket, and the URL is a delimiter-free protocol followed by `://` and the host |
| ServiceInfo.UrlIsProtocolAndHost | blobstore-jclouds-sample/src/main/java/com/ge/predix/sample/blobstore/connector/cloudfoundry/BlobstoreServiceInfoCreator.java:62-69 | only the endpoint's protocol survives: the URL is that protocol, `://` and the configured host |
| ServiceInfo.ProtocolPreserved | blobstore-jclouds-sample/src/main/java/com/ge/predix/sample/blobstore/connector/cloudfoundry/BlobstoreServiceInfoCreator.java:62-69 | the first token of the URL produced is the first token of the credentials' URL |
| ServiceInfo.DegenerateUrl | blobstore-jclouds-sample/src/main/java/com/ge/predix/sample/blobstore/connector/cloudfoundry/BlobstoreServiceInfoCreator.java:62-69 | an endpoint without a token and a missing host give the URL `://null` |
| ServiceInfo.Accept | blobstore-jclouds-sample/src/main/java/com/ge/predix/sample/blobstore/connector/cloudfoundry/BlobstoreServiceInfoCreator.java:81-86 | a missing service name, or a missing configured name, throws a null-pointer exception |
| ServiceInfo.AcceptIff | blobstore-jclouds-sample/src/main/java/com/ge/predix/sample/blobstore/connector/cloudfoundry/BlobstoreServiceInfoCreator.java:84-85 | a service is accepted exactly when its name is the configured name followed by anything |
| Endpoint.RegionAndPathStyle | blobstore-go-sample/s3.go:56-75 | path style is forced exactly for endpoints made of digits, dots and colons, and always in the default region; a region other than the default only comes from an `s3-` endpoint on an amazonaws domain |
| Endpoint.RegionalEndpoint | blobstore-go-sample/s3.go:63-70 | `s3-<region>.<rest>` with `amazonaws` in the rest yields exactly `<region>`, virtual-host style |
| Endpoint.NamedHostNotPathStyle | blobstore-go-sample/s3.go:57-61 | an endpoint with a letter in it is never addressed path style |
| Endpoint.NonS3Host | blobstore-go-sample/s3.go:63-73 | a named host whose second character is not `3` uses the default region, virtual-host style |
| Endpoint.AddressExamples | blobstore-go-sample/s3.go:57-61 | `127.0.0.1:9000` and the empty endpoint force path style in `us-east-1` |
| Endpoint.RegionalDotCom | blobstore-go-sample/s3.go:67-70 | `s3-<region>.amazonaws.com` names its region |
| Endpoint.RegionalExample | blobstore-go-sample/s3.go:67-70 | `s3-us-west-2.amazonaws.com` gives `us-west-2` |
| Endpoint.ExternalEndpointExample | blobstore-go-sample/s3.go:67-70 | `s3-external-1.amazonaws.com` gives the region `external-1`, read literally |
| Endpoint.GlobalEndpointExample | blobstore-go-sample/s3.go:63-66 | `s3.amazonaws.com` uses `us-east-1`, virtual-host style |
| Endpoint.OtherHostExample | blobstore-go-sample/s3.go:63-73 | a host outside AWS uses `us-east-1`, virtual-host style |
| Text.TrimPrefix | blobstore-go-sample/s3.go:69 | the input is the prefix followed by the result when it starts with the prefix, and is unchanged otherwise |
| Text.Split | blobstore-go-sample/signv2.go:74 | at least one field, none holding the separator, and joining the fields with the separator gives the input back |
| Text.SplitJoin | blobstore-go-sample/signv2.go:141 | splitting a join of separator-free fields recovers exactly those fields |
| Text.SplitTerminated | blobstore-go-sample/signv2.go:141 | lines joined by line breaks and ended by one split back into the lines and one empty field |
| Text.LastFieldOf | blobstore-go-sample/signv2.go:74-75 | the last field is the separator-free text after the last separator |
| Text.FirstFieldOf | blobstore-go-sample/signv2.go:153 | the first field is the separator-free text before the first separator |
| Text.ReplaceAbsent | blobstore-go-sample/signv2.go:76 | replacing a pattern that does not occur changes nothing |
| Text.ReplaceRemovesAll | blobstore-go-sample/signv2.go:76 | replacing a pattern by non-empty text that shares no character with it leaves no occurrence behind |
| Text.ReplaceKeepsOut | blobstore-go-sample/signv2.go:76 | replacing cannot introduce a character that neither the input nor the replacement holds |
| Text.TrimRightChar | blobstore-go-sample/signv2.go:161 | the result is a prefix that does not end in the character, and only that character was removed |
| Text.TrimLeftSpace | blobstore-go-sample/signv2.go:128 | the result is a suffix that does not start with white space, and only white space was removed |
| Text.TrimRightSpace | blobstore-go-sample/signv2.go:128 | the result is a prefix that does not end in white space, and only white space was removed |
| Text.TrimSpaceNoSpace | blobstore-go-sample/signv2.go:128 | a key without white space is its own trim |
| Text.JoinContains | blobstore-go-sample/signv2.go:141 | every joined line occurs in the joined text |
| Text.Sort | blobstore-go-sample/signv2.go:134 | the result is in ascending order and is a permutation of the input |
| Text.SortedUnique | blobstore-go-sample/signv2.go:134 | a list has only one ascending arrangement |
| Text.SortPermutation | blobstore-go-sample/signv2.go:134 | the sorted names depend only on the multiset of names, not on their order |
| Text.LessEqTotal | blobstore-go-sample/signv2.go:134 | any two strings are ordered one way or the other |
| Text.LessEqTransitive | blobstore-go-sample/signv2.go:134 | the string order is transitive |
| Text.LessEqAntisymmetric | blobstore-go-sample/signv2.go:134 | strings ordered both ways are equal |
| Headers.Canon | blobstore-go-sample/signv2.go:137 | canonicalising keeps the length and leaves a name with a non-token character as it is |
| Headers.CanonIdempotent | blobstore-go-sample/signv2.go:137 | canonicalising a canonical name changes nothing |
| Headers.CanonIgnoresCase | blobstore-go-sample/signv2.go:137 | the lower-cased name the signer passes to `Get` has the same canonical form as the key it came from |
| Headers.LowerCanon | blobstore-go-sample/signv2.go:128 | lower-casing a canonical key gives the lower-cased key |
| Headers.CanonWords | blobstore-go-sample/signv2.go:55 | a hyphenated token name is canonicalised word by word |
| Headers.Lookup | blobstore-go-sample/signv2.go:100-110 | a found value list is the one stored under the key, and nothing is found exactly when no entry has the key |
| Headers.Store | blobstore-go-sample/signv2.go:78 | the key then holds exactly the new values, keys stay distinct, and every other key reads as before |
| Headers.Set | blobstore-go-sample/signv2.go:78 | `Get` under the name returns the value that was set, and every name with another canonical form reads as before |
| Headers.LookupPermutation | blobstore-go-sample/signv2.go:127 | lookups do not depend on the map's iteration order |
| Headers.GetPermutation | blobstore-go-sample/signv2.go:137 | `Get` does not depend on the map's iteration order |
| SignV2.Prepare | blobstore-go-sample/signv2.go:67-94 | the content length becomes the body length when the body is not empty; the path is `/` plus one slash-free segment without `%20`; `x-amz-date` alone is set to the time; the opaque URL is cleared and nothing else changes |
| SignV2.PathShape | blobstore-go-sample/signv2.go:74-76 | the prepared path is a slash and the segment with its `%20`s replaced, with no slash and no `%20` left in it |
| SignV2.PathIsLastSegment | blobstore-go-sample/signv2.go:74-76 | the path is the last `/`-separated segment of the opaque URL |
| SignV2.AmzNames | blobstore-go-sample/signv2.go:127-132 | every selected name starts with `x-amz` |
| SignV2.NoAmzNames | blobstore-go-sample/signv2.go:127-132 | no name is selected exactly when no key standardizes to an `x-amz` name |
| SignV2.AmzNamesMember | blobstore-go-sample/signv2.go:127-132 | every key that standardizes to an `x-amz` name is selected |
| SignV2.AmzNameSource | blobstore-go-sample/signv2.go:127-132 | every selected name is the standardized form of some key |
| SignV2.AmzNamesPermutation | blobstore-go-sample/signv2.go:127-132 | reordering the map reorders the selected names and nothing else |
| SignV2.CanonicalAmzHeaders | blobstore-go-sample/signv2.go:124-144 | the canonical headers are empty exactly when no name is selected, and otherwise end with a line break |
| SignV2.NoAmzHeaders | blobstore-go-sample/signv2.go:140-143 | the canonical headers are empty exactly when no key standardizes to an `x-amz` name |
| SignV2.AmzHeadersOrderIndependent | blobstore-go-sample/signv2.go:124-144 | any iteration order of the header map gives the same canonical headers |
| SignV2.AmzHeaderCovered | blobstore-go-sample/signv2.go:124-144 | every `x-amz` header present contributes its name, a colon and its first value, with line breaks as spaces |
| SignV2.AmzHeadersLines | blobstore-go-sample/signv2.go:134-141 | with keys free of line breaks, the canonical headers split back into one line per selected name, in sorted order |
| SignV2.CanonicalResource | blobstore-go-sample/signv2.go:146-169 | an empty Host is filled from the URL; the resource is `/`, the host's first label and the path, plus `?` and the query when it starts with a sub-resource, whose trailing `=`s, and only those, are then removed from the request too; every other field of the request, content length, path and header included, is unchanged |
| SignV2.TrimKeepsSubresource | blobstore-go-sample/signv2.go:158-163 | removing the trailing `=`s keeps the sub-resource the query starts with |
| SignV2.CanonicalResourceIdempotent | blobstore-go-sample/signv2.go:146-169 | computing the resource again on the request it leaves behind gives the same resource and changes nothing more |
| SignV2.ResourceNamesBucket | blobstore-go-sample/signv2.go:153-156 | on a virtual-hosted request the resource starts with `/`, the bucket and the path |
| SignV2.UploadsQueryExample | blobstore-go-sample/signv2.go:158-165 | the query `uploads=` is signed, and left, as `uploads` |
| SignV2.ResourceIgnoresHeader | blobstore-go-sample/signv2.go:146-169 | the canonical resource does not depend on the request's header |
| SignV2.LayoutFields | blobstore-go-sample/signv2.go:96-112 | the first four lines of the string to sign are exactly the method and the three header values |
| SignV2.LayoutCovers | blobstore-go-sample/signv2.go:114-119 | text in the canonical headers is in the string to sign |
| SignV2.StringToSign | blobstore-go-sample/signv2.go:96-122 | building the string to sign leaves the request as the canonical resource leaves it, and the signed text ends with the canonical resource |
| SignV2.StringToSignFields | blobstore-go-sample/signv2.go:96-112 | the string to sign starts with the method, `Content-Md5`, `Content-Type` and `Date`, one per line |
| SignV2.SignedStringCovers | blobstore-go-sample/signv2.go:114-117 | every canonical header line is signed |
| SignV2.WithToken | blobstore-go-sample/signv2.go:53-56 | a session token is set as `X-Amz-Security-Token` and every other key keeps its values; without one the header is untouched |
| SignV2.Sign | blobstore-go-sample/signv2.go:49-65 | `Authorization` is `AWS `, the access key id, `:` and the signature of the string to sign; `x-amz-date` holds the time; keys stay distinct; method and body are kept; every other header key keeps its prepared values; the path and content length are the prepared ones; and the canonical resource of the request sent is the one that was signed |
| SignV2.AuthorizationRoundTrip | blobstore-go-sample/signv2.go:63 | the access key id and the signature can be read back from the `Authorization` value |
| SignV2.TokenStandardized | blobstore-go-sample/signv2.go:128 | standardizing a token name only lower-cases it |
| SignV2.SetHeaderCovered | blobstore-go-sample/signv2.go:124-144 | a header set under a token name whose lower-case form starts with `x-amz` has its line in the canonical headers |
| SignV2.DateIsSigned | blobstore-go-sample/signv2.go:78 | the string signed contains the `x-amz-date` line with the time that was set |
| SignV2.TokenIsSigned | blobstore-go-sample/signv2.go:53-60 | with a session token, the string signed contains its `x-amz-security-token` line |

## Left out

- Logging, the web controllers, the UI, configuration and the Go HTTP handlers are not modelled. They only call into or report on the operations above.
- HMAC-SHA1 and base64 (`signatureS3`, `hmacSHA1`) are a function parameter `sign(secret, text)`. The current time formatted as RFC 1123 is a parameter `date`.
- The internals of the AWS SDK and of jclouds are not modelled: request objects, upload ids, ETag values and `multipart()`. An ETag is represented by the trace position of the upload call that returned it.
- Streams are not closed in the model, and closing is not modelled.
- The AWS `put` replaces the caller's object metadata with a fresh `ObjectMetadata` holding only the content length (`BlobstoreService.java`, lines 108-110). The model does not track this effect on the argument. The declared size appears only in the `PutObject` call.
- Listing pages: both samples list the bucket once and ignore any later page. The AWS sample never checks `isTruncated()` or calls `listNextBatchOfObjects`, and the jclouds sample ignores the next marker. The `listing` parameter of `AwsService.ListAll` and `JcloudsService.ListFiles` stands for that one page.
- jclouds' `GetOptions.range` is not part of this model. Only its check that both bounds are non-negative is modelled, as `RangeGet.JcloudsAccepts`.
- The jclouds `put` declares `available()` as the content length. The model uses the full length of the stream's bytes.
- A null object stream in the AWS `put` (as opposed to a null object) is not modelled separately. A stream that throws is modelled by `readError`.
- The jclouds `get` with a null `BlobFile` dereferences it. The model takes the file id directly, so that null-pointer path is not modelled.
- Prepare: the source's `if request.URL.Path == ""` branch is dead, because the path always starts with `/`. The model leaves it out, and its contract states the path is non-empty.
- Go's map iteration order is arbitrary. The header is a list in one fixed order, and the canonical headers are proved independent of that order.
- The concurrency of the Go server is not modelled.
- JavaLang.ParseLong: only ASCII digits are accepted, while Java's `Long.parseLong` also accepts other Unicode decimal digits.
- Text.ToLower: only ASCII letters are folded, while Go's `strings.ToLower` folds every Unicode letter.
- Headers.Canon: only ASCII letters are folded. Header names outside the token characters are left unchanged, as Go does.
- Text.LessEq: orders strings by code point, which is Go's byte-wise order on valid UTF-8 text. Invalid UTF-8 is not modelled.
- The 64-bit range of Java's `long` is modelled explicitly (`JavaLang.InLongRange`). Part sizes and content lengths are unbounded integers, because the sizes involved, 50 MiB at most per part, fit in an `int`.

## Findings

| source | as written | input that shows it | evidently intended | confidence | as-written member | corrected member |
|---|---|---|---|---|---|---|
| blobstore-aws-sample/src/main/java/com/ge/predix/sample/blobstore/repository/BlobstoreService.java:104 | after a part is flushed, the buffer is reset but `currentPartSize` keeps the full part size, so the closing upload after a stream of an exact multiple of 50 MiB runs with an empty buffer | a 100 MiB stream: parts 1 and 2 hold the data, then part 3 is uploaded empty but declared as 50 MiB | no extra part; the last upload carries the true size of a non-empty remainder | not executed | AwsPutProperties.ExactMultipleUploadsEmptyPart | AwsPutProperties.CorrectedPartsExact |
| blobstore-jclouds-sample/src/main/java/com/ge/predix/sample/blobstore/repository/BlobstoreService.java:210 | `getObjectACL` calls `removeBlob`, so asking for a blob's ACL deletes the blob | any existing file passed to `getObjectACL` | a read of the blob's access control list that leaves the blob in place, as the method name, comment and log message say | not executed | JcloudsService.GetObjectAclDeletes | JcloudsService.GetObjectAclCorrected |

The AWS `put` model is parameterised by whether `currentPartSize` is reset on a flush (`Config.resetsSize`). `AwsPut.AsWritten` is the sample. `AwsPut.Corrected` is the intended behaviour, and every other property of `put` above is proved for both.
