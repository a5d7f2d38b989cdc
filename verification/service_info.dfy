/**
 * The Cloud Foundry connector of the jclouds sample: building the service
 * description from a bound service's data, and recognising the service by
 * the prefix of its name.
 */
module ServiceInfo {
  import opened Common
  import opened Text

  /** The credentials of a bound service; every entry may be missing (`null`). */
  datatype Credentials = Credentials(
    accessKeyId: Option<string>,
    secretAccessKey: Option<string>,
    url: Option<string>,
    host: Option<string>,
    bucketName: Option<string>)

  /** A bound service's data: its name and its credentials map, either possibly missing. */
  datatype ServiceData = ServiceData(name: Option<string>, credentials: Option<Credentials>)

  /** The service description handed to the service connector. */
  datatype BlobstoreServiceInfo = BlobstoreServiceInfo(
    id: Option<string>,
    accessKey: Option<string>,
    secretKey: Option<string>,
    bucket: Option<string>,
    url: string)

  /** The characters of the `StringTokenizer` delimiter string `"://"`. */
  predicate IsUrlDelimiter(c: char) {
    c == ':' || c == '/'
  }

  /** `s` without its leading run of delimiters. */
  function SkipDelimiters(s: string): (r: string)
    ensures HasSuffix(s, r)
    ensures |r| > 0 ==> !IsUrlDelimiter(r[0])
    ensures forall k :: 0 <= k < |s| - |r| ==> IsUrlDelimiter(s[k])
    decreases |s|
  {
    if |s| > 0 && IsUrlDelimiter(s[0]) then
      var r := SkipDelimiters(s[1..]);
      assert s[1..][|s[1..]| - |r|..] == s[|s| - |r|..];
      assert forall k :: 1 <= k < |s| - |r| ==> s[k] == s[1..][k - 1];
      r
    else s
  }

  /** The longest delimiter-free prefix of `s`. */
  function TokenPrefix(s: string): (t: string)
    ensures HasPrefix(s, t)
    ensures forall k :: 0 <= k < |t| ==> !IsUrlDelimiter(t[k])
    ensures |t| < |s| ==> IsUrlDelimiter(s[|t|])
    decreases |s|
  {
    if |s| == 0 || IsUrlDelimiter(s[0]) then [] else [s[0]] + TokenPrefix(s[1..])
  }

  /**
   * The first token of a `StringTokenizer` over `s` with the delimiters `:`
   * and `/`, or `""` when `s` holds no token.
   */
  function FirstToken(s: string): (t: string)
    ensures forall k :: 0 <= k < |t| ==> !IsUrlDelimiter(t[k])
    ensures t == "" <==> forall k :: 0 <= k < |s| ==> IsUrlDelimiter(s[k])
  {
    var r := SkipDelimiters(s);
    var t := TokenPrefix(r);
    assert |r| > 0 ==> t[0] == r[0];
    t
  }

  /** A delimiter-free word followed by nothing or by a delimiter is the first token. */
  lemma {:induction false} TokenPrefixOf(p: string, rest: string)
    requires forall k :: 0 <= k < |p| ==> !IsUrlDelimiter(p[k])
    requires |rest| > 0 ==> IsUrlDelimiter(rest[0])
    ensures TokenPrefix(p + rest) == p
    decreases |p|
  {
    if |p| > 0 {
      assert (p + rest)[1..] == p[1..] + rest;
      TokenPrefixOf(p[1..], rest);
    } else {
      assert p + rest == rest;
    }
  }

  lemma FirstTokenOf(p: string, rest: string)
    requires |p| > 0 && forall k :: 0 <= k < |p| ==> !IsUrlDelimiter(p[k])
    requires |rest| > 0 ==> IsUrlDelimiter(rest[0])
    ensures FirstToken(p + rest) == p
  {
    TokenPrefixOf(p, rest);
  }

  /** How Java's string concatenation renders a possibly-null string. */
  function JavaText(s: Option<string>): string {
    if s.Some? then s.value else "null"
  }

  /**
   * `createServiceInfo`: the id, keys and bucket are copied, and the URL is
   * the protocol of the credentials' URL (its first token, `""` if it has
   * none) joined by `"://"` to the host. A missing credentials map or URL is
   * dereferenced and throws a null-pointer exception.
   */
  function CreateServiceInfo(data: ServiceData): (r: Result<BlobstoreServiceInfo>)
    ensures r.Err? <==> data.credentials.None? || data.credentials.value.url.None?
    ensures r.Err? ==> r.error == NullPointer
    ensures r.Ok? ==>
              var c := data.credentials.value;
              && r.value.id == data.name
              && r.value.accessKey == c.accessKeyId && r.value.secretKey == c.secretAccessKey
              && r.value.bucket == c.bucketName
              && HasSuffix(r.value.url, "://" + JavaText(c.host))
              && forall k :: 0 <= k < |r.value.url| - |"://" + JavaText(c.host)| ==> !IsUrlDelimiter(r.value.url[k])
  {
    match data.credentials
    case None => Err(NullPointer)
    case Some(c) =>
      match c.url
      case None => Err(NullPointer)
      case Some(endpoint) =>
        var protocol := FirstToken(endpoint);
        var url := protocol + ("://" + JavaText(c.host));
        UrlShape(protocol, "://" + JavaText(c.host));
        Ok(BlobstoreServiceInfo(data.name, c.accessKeyId, c.secretAccessKey, c.bucketName, url))
  }

  /** A delimiter-free word followed by a tail: the tail is a suffix and nothing before it is a delimiter. */
  lemma UrlShape(word: string, tail: string)
    requires forall k :: 0 <= k < |word| ==> !IsUrlDelimiter(word[k])
    ensures HasSuffix(word + tail, tail)
    ensures forall k :: 0 <= k < |word + tail| - |tail| ==> !IsUrlDelimiter((word + tail)[k])
  {
    assert (word + tail)[|word|..] == tail;
  }

  /**
   * Only the endpoint's protocol survives: whatever follows it (the bucket
   * host, a path) is replaced by the configured host.
   */
  lemma UrlIsProtocolAndHost(data: ServiceData, protocol: string, rest: string, host: string)
    requires data.credentials.Some?
    requires data.credentials.value.url == Some(protocol + rest)
    requires data.credentials.value.host == Some(host)
    requires |protocol| > 0 && forall k :: 0 <= k < |protocol| ==> !IsUrlDelimiter(protocol[k])
    requires |rest| > 0 && IsUrlDelimiter(rest[0])
    ensures CreateServiceInfo(data).Ok?
    ensures CreateServiceInfo(data).value.url == protocol + "://" + host
  {
    FirstTokenOf(protocol, rest);
    assert protocol + ("://" + host) == protocol + "://" + host;
  }

  /**
   * The URL produced keeps the endpoint's protocol: reading its first token
   * gives back the protocol of the credentials' URL, whenever it has one.
   */
  lemma ProtocolPreserved(data: ServiceData)
    requires CreateServiceInfo(data).Ok?
    requires FirstToken(data.credentials.value.url.value) != ""
    ensures FirstToken(CreateServiceInfo(data).value.url) == FirstToken(data.credentials.value.url.value)
  {
    var protocol := FirstToken(data.credentials.value.url.value);
    var rest := "://" + JavaText(data.credentials.value.host);
    FirstTokenOf(protocol, rest);
  }

  /** An endpoint made only of delimiters has no protocol, and a missing host is written `null`. */
  lemma DegenerateUrl(data: ServiceData)
    requires data.credentials.Some? && data.credentials.value.url == Some("//")
    requires data.credentials.value.host.None?
    ensures CreateServiceInfo(data) == Ok(BlobstoreServiceInfo(data.name, data.credentials.value.accessKeyId,
              data.credentials.value.secretAccessKey, data.credentials.value.bucketName, "://null"))
  {
    assert FirstToken("//") == "";
    assert "" + ("://" + "null") == "://null";
  }

  /**
   * `accept`: whether the service's name starts with the configured service
   * name; a missing name, or no configured name, throws a null-pointer
   * exception.
   */
  function Accept(configured: Option<string>, data: ServiceData): (r: Result<bool>)
    ensures r.Err? <==> configured.None? || data.name.None?
    ensures r.Err? ==> r.error == NullPointer
  {
    if data.name.None? || configured.None? then Err(NullPointer)
    else Ok(HasPrefix(data.name.value, configured.value))
  }

  /** A service is accepted exactly when its name is the configured name followed by anything. */
  lemma AcceptIff(configured: string, data: ServiceData)
    requires data.name.Some?
    ensures Accept(Some(configured), data) == Ok(true) <==> exists suffix :: data.name.value == configured + suffix
  {
    var name := data.name.value;
    if HasPrefix(name, configured) {
      assert name == configured + name[|configured|..];
    }
    if exists suffix :: name == configured + suffix {
      var suffix :| name == configured + suffix;
      assert name[..|configured|] == configured;
    }
  }
}
