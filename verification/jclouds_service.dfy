/**
 * The jclouds sample's service: a `BlobFile` is stored as one multipart
 * `putBlob`, read through `RangeGet.JcloudsGet`, listed as metadata-only
 * `BlobFile`s, and removed by `delete` -- and, as the sample writes it, also by
 * `getObjectACL`, which removes the blob instead of reading its ACL.
 */
module JcloudsService {
  import opened Common
  import AwsService

  /**
   * The sample's file entity. `file` is the content its stream delivers,
   * `None` for a null stream; `url` is `None` when no URL was given.
   */
  datatype BlobFile = BlobFile(id: string, bucket: string, name: string, file: Option<seq<byte>>, url: Option<string>)

  /** A service bound to a bucket; `url` is `None` for the constructor without one. */
  datatype Service = Service(bucket: string, url: Option<string>)

  /** The blob `put` builds: named by the file's id, disposition the file's name. */
  datatype Blob = Blob(name: string, payload: seq<byte>, contentDisposition: string, contentLength: nat, contentType: string)

  /** What `list` returns for one blob; `uri` is `None` when the metadata has none. */
  datatype StorageMetadata = StorageMetadata(name: string, uri: Option<string>)

  /** A call the service makes on the jclouds blob store. */
  datatype StoreCall =
    | PutBlob(bucket: string, blob: Blob, multipart: bool)
    | List(bucket: string)
    | RemoveBlob(bucket: string, name: string)
    | ReadAcl(bucket: string, name: string)

  /** `createBlobFileObject`: a file entity in the service's bucket carrying the service's URL. */
  function CreateBlobFile(svc: Service, id: string, name: string, file: Option<seq<byte>>): (f: BlobFile)
    ensures f.bucket == svc.bucket && f.url == svc.url
    ensures f.id == id && f.name == name && f.file == file
  {
    BlobFile(id, svc.bucket, name, file, svc.url)
  }

  /**
   * `put(file, contentType)`: a null file is rejected and a null stream
   * fails while the blob is built, both before any call; otherwise the
   * blob is uploaded by one multipart `putBlob`, whose exception, if any,
   * is rethrown.
   */
  function Put(svc: Service, file: Option<BlobFile>, contentType: string, reply: Result<string>): (o: (seq<StoreCall>, Result<()>))
    ensures file.None? ==> o == ([], Err(FileIsNull))
    ensures file.Some? && file.value.file.None? ==> o == ([], Err(NullPointer))
    ensures o.1.Ok? <==> file.Some? && file.value.file.Some? && reply.Ok?
    ensures file.Some? && file.value.file.Some? ==>
              o.0 == [PutBlob(svc.bucket, Blob(file.value.id, file.value.file.value, file.value.name,
                                               |file.value.file.value|, contentType), true)]
    ensures file.Some? && file.value.file.Some? && reply.Err? ==> o.1 == Err(reply.error)
    ensures |o.0| <= 1
    ensures forall c :: c in o.0 ==> c.PutBlob? && c.multipart && c.bucket == svc.bucket
  {
    match file
    case None => ([], Err(FileIsNull))
    case Some(f) =>
      match f.file
      case None => ([], Err(NullPointer))
      case Some(content) =>
        var blob := Blob(f.id, content, f.name, |content|, contentType);
        ([PutBlob(svc.bucket, blob, true)], if reply.Err? then Err(reply.error) else Ok(()))
  }

  /** A file made by `createBlobFileObject` is stored under its id with all of its bytes. */
  lemma CreatedFileIsStored(svc: Service, id: string, name: string, content: seq<byte>, contentType: string, reply: Result<string>)
    ensures var f := CreateBlobFile(svc, id, name, Some(content));
            Put(svc, Some(f), contentType, reply).0
            == [PutBlob(svc.bucket, Blob(id, content, name, |content|, contentType), true)]
  {
  }

  /**
   * `get()`: `listing` is the one page `blobStore.list(bucket)` returns
   * (the next marker is ignored). Each listed blob becomes a file whose id and name are the
   * blob's name, in the service's bucket, without content, with the blob's
   * URI as URL. A null listing is an empty list; a blob without a URI fails
   * the whole listing with a null-pointer exception.
   */
  function ListFiles(svc: Service, listing: Result<Option<seq<StorageMetadata>>>): (o: (seq<StoreCall>, Result<seq<BlobFile>>))
    ensures o.0 == [List(svc.bucket)]
    ensures listing.Err? ==> o.1 == Err(listing.error)
    ensures listing == Ok(None) ==> o.1 == Ok([])
    ensures listing.Ok? && listing.value.Some? ==>
              (o.1.Ok? <==> forall j :: 0 <= j < |listing.value.value| ==> listing.value.value[j].uri.Some?)
    ensures o.1.Ok? && listing.Ok? && listing.value.Some? ==>
              var items := listing.value.value;
              && |o.1.value| == |items|
              && forall j :: 0 <= j < |items| ==>
                   o.1.value[j] == BlobFile(items[j].name, svc.bucket, items[j].name, None, items[j].uri)
  {
    var result := match listing
      case Err(e) => Err(e)
      case Ok(None) => Ok([])
      case Ok(Some(items)) => ToFiles(svc.bucket, items);
    ([List(svc.bucket)], result)
  }

  /** The files for `items`, or the null-pointer exception of the first item without a URI. */
  function ToFiles(bucket: string, items: seq<StorageMetadata>): (r: Result<seq<BlobFile>>)
    ensures r.Ok? <==> forall j :: 0 <= j < |items| ==> items[j].uri.Some?
    ensures r.Err? ==> r.error == NullPointer
    ensures r.Ok? ==> |r.value| == |items|
    ensures r.Ok? ==>
              forall j :: 0 <= j < |items| ==> r.value[j] == BlobFile(items[j].name, bucket, items[j].name, None, items[j].uri)
    decreases |items|
  {
    if |items| == 0 then Ok([])
    else if items[0].uri.None? then Err(NullPointer)
    else
      match ToFiles(bucket, items[1..])
      case Err(e) => Err(e)
      case Ok(files) => Ok([BlobFile(items[0].name, bucket, items[0].name, None, items[0].uri)] + files)
  }

  /** A listed file names its blob: deleting it removes the blob it was listed for. */
  lemma ListedFileDeletesItsBlob(svc: Service, items: seq<StorageMetadata>, j: nat, reply: Result<()>)
    requires j < |items|
    requires ListFiles(svc, Ok(Some(items))).1.Ok?
    ensures Delete(svc, Some(ListFiles(svc, Ok(Some(items))).1.value[j]), reply).0 == [RemoveBlob(svc.bucket, items[j].name)]
  {
  }

  /** `delete(file)`: one removal of the file's id; a null file fails before any call. */
  function Delete(svc: Service, file: Option<BlobFile>, reply: Result<()>): (o: (seq<StoreCall>, Result<()>))
    ensures file.None? ==> o == ([], Err(NullPointer))
    ensures file.Some? ==> o.0 == [RemoveBlob(svc.bucket, file.value.id)] && o.1 == reply
  {
    match file
    case None => ([], Err(NullPointer))
    case Some(f) => ([RemoveBlob(svc.bucket, f.id)], reply)
  }

  /**
   * `getObjectACL(file)` as the sample writes it: it reads no ACL but
   * removes the file's blob.
   */
  function GetObjectAcl(svc: Service, file: Option<BlobFile>, reply: Result<()>): (o: (seq<StoreCall>, Result<()>))
    ensures file.Some? ==> o.0 == [RemoveBlob(svc.bucket, file.value.id)]
  {
    match file
    case None => ([], Err(NullPointer))
    case Some(f) => ([RemoveBlob(svc.bucket, f.id)], reply)
  }

  /** `getObjectACL` is indistinguishable from `delete`, on every input. */
  lemma GetObjectAclDeletes(svc: Service, file: Option<BlobFile>, reply: Result<()>)
    ensures GetObjectAcl(svc, file, reply) == Delete(svc, file, reply)
  {
  }

  /**
   * `getObjectACL` as its name, its comment and its log message describe
   * it: one read of the access control list of the file's blob, whose
   * grants (or exception) are returned; nothing is removed.
   */
  function GetObjectAclCorrected(svc: Service, file: Option<BlobFile>, reply: Result<seq<string>>)
    : (o: (seq<StoreCall>, Result<seq<string>>))
    ensures file.None? ==> o == ([], Err(NullPointer))
    ensures file.Some? ==> o.0 == [ReadAcl(svc.bucket, file.value.id)] && o.1 == reply
  {
    match file
    case None => ([], Err(NullPointer))
    case Some(f) => ([ReadAcl(svc.bucket, f.id)], reply)
  }

  /**
   * The discrepancy: for the same file, the sample's `getObjectACL` removes
   * the blob, while reading the ACL leaves every blob in place.
   */
  lemma AclReadKeepsBlob(svc: Service, file: BlobFile, removed: Result<()>, grants: Result<seq<string>>)
    ensures RemoveBlob(svc.bucket, file.id) in GetObjectAcl(svc, Some(file), removed).0
    ensures forall c :: c in GetObjectAclCorrected(svc, Some(file), grants).0 ==> !c.RemoveBlob?
  {
  }

  /**
   * The two samples delete alike: given a key, the AWS `delete` and the
   * jclouds `delete` of a file with that id each make one removal of that
   * key from the same bucket and report the same result.
   */
  lemma SamplesAgreeOnDelete(svc: Service, file: BlobFile, reply: Result<()>)
    ensures var aws := AwsService.Delete(svc.bucket, file.id, reply);
            var jclouds := Delete(svc, Some(file), reply);
            && |aws.0| == |jclouds.0| == 1
            && aws.0[0].bucket == jclouds.0[0].bucket && aws.0[0].key == jclouds.0[0].name
            && aws.1 == jclouds.1
  {
  }
}
