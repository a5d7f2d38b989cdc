/**
 * The Go sample's AWS signature version 2 request signer. The request is
 * prepared (path taken from the opaquePart URL, body length, `x-amz-date`),
 * the string to sign is built from the method, three standard headers, the
 * canonical `x-amz-*` headers and the canonical resource, and the
 * `Authorization` header carries the access key id and the signature.
 * HMAC-SHA1 and base64 are not modelled: the signature is a parameter
 * `sign(secret, stringToSign)`, and so is the formatted current time.
 */
module SignV2 {
  import opened Common
  import opened Text
  import opened Headers

  /** The sub-resources that are kept in the canonical resource, in the order they are tried. */
  const Subresources: seq<string> := [
    "acl", "lifecycle", "location", "logging", "notification", "partNumber", "policy",
    "requestPayment", "torrent", "uploadId", "uploads", "versionId", "versioning",
    "versions", "website"]

  /** The parts of a request URL the signer reads or writes. */
  datatype Url = Url(opaquePart: string, path: string, host: string, rawQuery: string)

  /** The parts of an HTTP request the signer reads or writes; `body` is `None` for a nil body. */
  datatype Request = Request(verb: string, url: Url, host: string, header: Header, body: Option<seq<byte>>, contentLength: int)

  datatype Credentials = Credentials(accessKeyId: string, secretAccessKey: string, sessionToken: string)

  // ---------------------------------------------------------------------
  // prepareRequestS3
  // ---------------------------------------------------------------------

  /** `getBodyLength`: the number of bytes in the body, 0 for a nil body. */
  function BodyLength(req: Request): nat {
    if req.body.None? then 0 else |req.body.value|
  }

  /**
   * `prepareRequestS3`: the content length is set when the body is not
   * empty; the path becomes `/` and the last `/`-separated segment of the
   * opaquePart URL, with every `%20` written `+`; `x-amz-date` is set to the
   * given time and the opaquePart URL is cleared.
   */
  function Prepare(req: Request, date: string): (r: Request)
    requires DistinctKeys(req.header)
    ensures DistinctKeys(r.header)
    ensures r.url.opaquePart == ""
    ensures |r.url.path| >= 1 && r.url.path[0] == '/' && '/' !in r.url.path[1..]
    ensures !Contains(r.url.path, "%20")
    ensures Get(r.header, "x-amz-date") == date
    ensures Lookup(r.header, Canon("x-amz-date")) == Some([date])
    ensures forall k :: k != Canon("x-amz-date") ==> Lookup(r.header, k) == Lookup(req.header, k)
    ensures r.contentLength == if BodyLength(req) > 0 then BodyLength(req) else req.contentLength
    ensures r.verb == req.verb && r.host == req.host && r.body == req.body
    ensures r.url.host == req.url.host && r.url.rawQuery == req.url.rawQuery
  {
    var length := BodyLength(req);
    var segment := LastField(req.url.opaquePart, '/');
    var path := ReplaceAll("/" + segment, "%20", "+");
    PathShape(segment);
    req.(contentLength := if length > 0 then length else req.contentLength,
         url := req.url.(path := path, opaquePart := ""),
         header := Set(req.header, "x-amz-date", date))
  }

  /** The prepared path is a slash followed by the segment with its `%20`s replaced. */
  lemma PathShape(segment: string)
    requires '/' !in segment
    ensures ReplaceAll("/" + segment, "%20", "+") == "/" + ReplaceAll(segment, "%20", "+")
    ensures '/' !in ReplaceAll(segment, "%20", "+")
    ensures !Contains(ReplaceAll("/" + segment, "%20", "+"), "%20")
  {
    assert ("/" + segment)[1..] == segment;
    assert !HasPrefix("/" + segment, "%20") by {
      assert ("/" + segment)[0] == '/';
    }
    ReplaceKeepsOut(segment, "%20", "+", '/');
    ReplaceRemovesAll("/" + segment, "%20", "+");
  }

  /** A last segment without spaces or slashes becomes the path unchanged. */
  lemma PathIsLastSegment(req: Request, date: string, dir: string, segment: string)
    requires DistinctKeys(req.header)
    requires req.url.opaquePart == dir + "/" + segment
    requires '/' !in segment && !Contains(segment, "%20")
    ensures Prepare(req, date).url.path == "/" + segment
  {
    assert dir + "/" + segment == dir + ['/'] + segment;
    LastFieldOf(dir, '/', segment);
    PathShape(segment);
    ReplaceAbsent(segment, "%20", "+");
  }

  // ---------------------------------------------------------------------
  // canonicalAmzHeadersS3
  // ---------------------------------------------------------------------

  /** A header key as the signer compares it: trimmed of spaces and lower-cased. */
  function Standardized(key: string): string {
    ToLower(TrimSpace(key))
  }

  predicate IsAmz(name: string) {
    HasPrefix(name, "x-amz")
  }

  /** The standardized keys that start with `x-amz`, in the header's iteration order. */
  function AmzNames(h: Header): (names: seq<string>)
    ensures forall i :: 0 <= i < |names| ==> IsAmz(names[i])
    decreases |h|
  {
    if |h| == 0 then []
    else
      var name := Standardized(h[0].0);
      var rest := AmzNames(h[1..]);
      if IsAmz(name) then [name] + rest else rest
  }

  /** No name is selected exactly when no key standardizes to an `x-amz` name. */
  lemma {:induction false} NoAmzNames(h: Header)
    ensures AmzNames(h) == [] <==> forall i :: 0 <= i < |h| ==> !IsAmz(Standardized(h[i].0))
    decreases |h|
  {
    if |h| > 0 {
      NoAmzNames(h[1..]);
      assert forall i :: 1 <= i < |h| ==> h[i] == h[1..][i - 1];
    }
  }

  /** The line for each name: the name, a colon, and its first value with line breaks turned into spaces. */
  function AmzLines(h: Header, names: seq<string>): (lines: seq<string>)
    ensures |lines| == |names|
  {
    seq(|names|, i requires 0 <= i < |names| => names[i] + ":" + ReplaceAll(Get(h, names[i]), "\n", " "))
  }

  /**
   * `canonicalAmzHeadersS3`: the `x-amz` lines for the sorted names, each
   * ended by a line break, or `""` when there are none.
   */
  function CanonicalAmzHeaders(h: Header): (r: string)
    ensures r == "" <==> AmzNames(h) == []
    ensures r != "" ==> r[|r| - 1] == '\n'
  {
    var names := Sort(AmzNames(h));
    if |names| == 0 then ""
    else Join(AmzLines(h, names), '\n') + "\n"
  }

  /** The canonical headers are empty exactly when no header key standardizes to an `x-amz` name. */
  lemma NoAmzHeaders(h: Header)
    ensures CanonicalAmzHeaders(h) == "" <==> forall i :: 0 <= i < |h| ==> !IsAmz(Standardized(h[i].0))
  {
    NoAmzNames(h);
  }

  lemma {:induction false} AmzNamesAppend(a: Header, b: Header)
    ensures AmzNames(a + b) == AmzNames(a) + AmzNames(b)
    decreases |a|
  {
    if |a| > 0 {
      assert (a + b)[1..] == a[1..] + b;
      AmzNamesAppend(a[1..], b);
    } else {
      assert a + b == b;
    }
  }

  /** A reordering of a non-empty list has its first element somewhere, with the rest reordered around it. */
  lemma SplitAtFirst<T>(h1: seq<T>, h2: seq<T>) returns (a: seq<T>, b: seq<T>)
    requires |h1| > 0 && multiset(h1) == multiset(h2)
    ensures h2 == a + [h1[0]] + b
    ensures multiset(h1[1..]) == multiset(a + b)
  {
    var x := h1[0];
    assert x in multiset(h2);
    var i :| 0 <= i < |h2| && h2[i] == x;
    a, b := h2[..i], h2[i + 1..];
    assert h2 == a + [x] + b;
    assert h1 == [x] + h1[1..];
    forall y
      ensures multiset(h1[1..])[y] == multiset(a + b)[y]
    {
      assert multiset(h1)[y] == multiset([x])[y] + multiset(h1[1..])[y];
      assert multiset(h2)[y] == multiset(a)[y] + multiset([x])[y] + multiset(b)[y];
    }
    assert multiset(h1[1..]) == multiset(a + b);
  }

  /** Reordering the header entries reorders the selected names and nothing else. */
  lemma {:induction false} AmzNamesPermutation(h1: Header, h2: Header)
    requires multiset(h1) == multiset(h2)
    ensures multiset(AmzNames(h1)) == multiset(AmzNames(h2))
    decreases |h1|
  {
    if |h1| == 0 {
      assert |multiset(h2)| == 0;
      assert h2 == [];
    } else {
      var x := h1[0];
      var a, b := SplitAtFirst(h1, h2);
      AmzNamesPermutation(h1[1..], a + b);
      assert h1 == [x] + h1[1..];
      AmzNamesAppend([x], h1[1..]);
      AmzNamesAppend(a + [x], b);
      AmzNamesAppend(a, [x]);
      AmzNamesAppend(a, b);
    }
  }

  /**
   * The canonical headers do not depend on the order in which the header
   * map is iterated: any reordering of the entries gives the same text.
   */
  lemma AmzHeadersOrderIndependent(h1: Header, h2: Header)
    requires DistinctKeys(h1) && DistinctKeys(h2) && multiset(h1) == multiset(h2)
    ensures CanonicalAmzHeaders(h1) == CanonicalAmzHeaders(h2)
  {
    AmzNamesPermutation(h1, h2);
    SortPermutation(AmzNames(h1), AmzNames(h2));
    var names := Sort(AmzNames(h1));
    forall i | 0 <= i < |names|
      ensures Get(h1, names[i]) == Get(h2, names[i])
    {
      GetPermutation(h1, h2, names[i]);
    }
    AmzLinesAgree(h1, h2, names);
  }

  /** Headers that agree on every name give the same lines for those names. */
  lemma AmzLinesAgree(h1: Header, h2: Header, names: seq<string>)
    requires forall i :: 0 <= i < |names| ==> Get(h1, names[i]) == Get(h2, names[i])
    ensures AmzLines(h1, names) == AmzLines(h2, names)
  {
  }

  /** A header's standardized key is among the selected names when it starts with `x-amz`. */
  lemma {:induction false} AmzNamesMember(h: Header, i: nat)
    requires i < |h| && IsAmz(Standardized(h[i].0))
    ensures Standardized(h[i].0) in AmzNames(h)
    decreases |h|
  {
    if i > 0 {
      assert h[i] == h[1..][i - 1];
      AmzNamesMember(h[1..], i - 1);
    }
  }

  /**
   * Every header stored under the canonical form of an `x-amz` name is
   * covered: its line, with the first value's line breaks turned into
   * spaces, is part of the canonical headers.
   */
  lemma AmzHeaderCovered(h: Header, name: string)
    requires DistinctKeys(h) && IsAmz(name) && Standardized(Canon(name)) == name
    requires Lookup(h, Canon(name)).Some?
    ensures Contains(CanonicalAmzHeaders(h), name + ":" + ReplaceAll(Get(h, name), "\n", " "))
  {
    var key := Canon(name);
    var i :| 0 <= i < |h| && h[i] == (key, Lookup(h, key).value);
    AmzNamesMember(h, i);
    var names := Sort(AmzNames(h));
    assert name in multiset(names);
    var k :| 0 <= k < |names| && names[k] == name;
    var lines := AmzLines(h, names);
    JoinContains(lines, '\n', k);
    ContainsBefore(Join(lines, '\n'), "\n", lines[k]);
  }

  /**
   * With header keys free of line breaks, the canonical headers split back
   * into one line per selected header, in sorted order.
   */
  lemma AmzHeadersLines(h: Header)
    requires forall i :: 0 <= i < |h| ==> '\n' !in h[i].0
    requires CanonicalAmzHeaders(h) != ""
    ensures Split(CanonicalAmzHeaders(h), '\n') == AmzLines(h, Sort(AmzNames(h))) + [""]
  {
    var names := Sort(AmzNames(h));
    var lines := AmzLines(h, names);
    forall k | 0 <= k < |names|
      ensures '\n' !in names[k]
    {
      assert names[k] in multiset(AmzNames(h));
      AmzNameHasNoBreak(h, names[k]);
    }
    LinesHaveNoBreak(h, names);
    SplitTerminated(lines, '\n');
  }

  /** Names without line breaks give lines without line breaks. */
  lemma LinesHaveNoBreak(h: Header, names: seq<string>)
    requires forall k :: 0 <= k < |names| ==> '\n' !in names[k]
    ensures forall k :: 0 <= k < |names| ==> '\n' !in AmzLines(h, names)[k]
  {
    forall k | 0 <= k < |names|
      ensures '\n' !in AmzLines(h, names)[k]
    {
      var v := ReplaceAll(Get(h, names[k]), "\n", " ");
      ReplaceRemovesAll(Get(h, names[k]), "\n", " ");
      NoCharWithoutInfix(v, '\n');
      assert AmzLines(h, names)[k] == names[k] + ":" + v;
    }
  }

  /** A name selected from keys without line breaks has none. */
  lemma AmzNameHasNoBreak(h: Header, name: string)
    requires forall i :: 0 <= i < |h| ==> '\n' !in h[i].0
    requires name in AmzNames(h)
    ensures '\n' !in name
  {
    var i := AmzNameSource(h, name);
    StandardizedNoBreak(h[i].0);
  }

  /** Standardizing a key without line breaks introduces none. */
  lemma StandardizedNoBreak(key: string)
    requires '\n' !in key
    ensures '\n' !in Standardized(key)
  {
    var t := TrimSpace(key);
    TrimSpaceInfix(key);
    assert '\n' !in t;
  }

  /** Every selected name comes from some key. */
  lemma {:induction false} AmzNameSource(h: Header, name: string) returns (i: nat)
    requires name in AmzNames(h)
    ensures i < |h| && Standardized(h[i].0) == name
    decreases |h|
  {
    if Standardized(h[0].0) == name {
      i := 0;
    } else {
      var j := AmzNameSource(h[1..], name);
      i := j + 1;
    }
  }

  /** Trimming keeps a contiguous part of the key. */
  lemma TrimSpaceInfix(s: string)
    ensures forall k :: 0 <= k < |TrimSpace(s)| ==> TrimSpace(s)[k] in s
  {
    var l := TrimLeftSpace(s);
    assert forall k :: 0 <= k < |l| ==> l[k] == s[|s| - |l| + k];
    var t := TrimRightSpace(l);
    assert forall k :: 0 <= k < |t| ==> t[k] == l[k];
  }

  /** A character is absent when no one-character infix equals it. */
  lemma {:induction false} NoCharWithoutInfix(s: string, c: char)
    requires !Contains(s, [c])
    ensures c !in s
    decreases |s|
  {
    if |s| > 0 {
      assert s[..1] != [c];
      NoCharWithoutInfix(s[1..], c);
    }
  }

  // ---------------------------------------------------------------------
  // canonicalResourceS3
  // ---------------------------------------------------------------------

  /** The query starts with one of the sub-resources. */
  predicate NamesSubresource(query: string) {
    exists i :: 0 <= i < |Subresources| && HasPrefix(query, Subresources[i])
  }

  /**
   * `canonicalResourceS3`, with the request it leaves behind: an empty Host
   * is filled from the URL; the resource is `/`, the host's first
   * dot-separated label, the path, and, when the query starts with a
   * sub-resource, `?` and the query, whose trailing `=`s are removed from
   * the request as well.
   */
  function CanonicalResource(req: Request): (o: (string, Request))
    ensures o.1.host == (if req.host == "" then req.url.host else req.host)
    ensures HasPrefix(o.0, "/" + FirstField(o.1.host, '.') + req.url.path)
    ensures NamesSubresource(req.url.rawQuery) ==>
              && o.0 == "/" + FirstField(o.1.host, '.') + req.url.path + "?" + o.1.url.rawQuery
              && HasPrefix(req.url.rawQuery, o.1.url.rawQuery)
              && (|o.1.url.rawQuery| > 0 ==> o.1.url.rawQuery[|o.1.url.rawQuery| - 1] != '=')
              && (forall k :: |o.1.url.rawQuery| <= k < |req.url.rawQuery| ==> req.url.rawQuery[k] == '=')
    ensures !NamesSubresource(req.url.rawQuery) ==>
              o.0 == "/" + FirstField(o.1.host, '.') + req.url.path && o.1.url == req.url
    ensures o.1 == req.(host := o.1.host, url := req.url.(rawQuery := o.1.url.rawQuery))
  {
    var host := if req.host == "" then req.url.host else req.host;
    var base := "/" + FirstField(host, '.') + req.url.path;
    var query := req.url.rawQuery;
    if NamesSubresource(query) then
      var trimmed := if HasSuffix(query, "=") then TrimRightChar(query, '=') else query;
      (base + "?" + trimmed, req.(host := host, url := req.url.(rawQuery := trimmed)))
    else
      (base, req.(host := host))
  }

  /** Trimming the trailing `=`s of a query keeps the sub-resource it starts with. */
  lemma TrimKeepsSubresource(query: string)
    requires NamesSubresource(query)
    ensures NamesSubresource(TrimRightChar(query, '='))
  {
    var i :| 0 <= i < |Subresources| && HasPrefix(query, Subresources[i]);
    var sub := Subresources[i];
    var t := TrimRightChar(query, '=');
    assert sub[|sub| - 1] != '=';
    assert t[..|sub|] == query[..|sub|];
  }

  /**
   * Computing the canonical resource a second time, on the request the first
   * computation left behind, gives the same resource and changes nothing more.
   */
  lemma CanonicalResourceIdempotent(req: Request)
    ensures CanonicalResource(CanonicalResource(req).1) == CanonicalResource(req)
  {
    var query := req.url.rawQuery;
    if NamesSubresource(query) {
      var trimmed := if HasSuffix(query, "=") then TrimRightChar(query, '=') else query;
      if HasSuffix(query, "=") {
        TrimKeepsSubresource(query);
      }
      assert NamesSubresource(trimmed);
      var t2 := if HasSuffix(trimmed, "=") then TrimRightChar(trimmed, '=') else trimmed;
      assert !HasSuffix(trimmed, "=") by {
        var i :| 0 <= i < |Subresources| && HasPrefix(trimmed, Subresources[i]);
        assert |trimmed| > 0;
        if !HasSuffix(query, "=") {
          assert query[|query| - 1] != '=';
        }
      }
    }
  }

  /** The canonical resource does not read the header. */
  lemma ResourceIgnoresHeader(req: Request, h: Header)
    ensures CanonicalResource(req.(header := h)).0 == CanonicalResource(req).0
  {
  }

  /** On a virtual-hosted request the resource starts with the bucket, the first label of the host. */
  lemma ResourceNamesBucket(req: Request, bucket: string, domain: string)
    requires req.host == bucket + "." + domain && '.' !in bucket
    ensures HasPrefix(CanonicalResource(req).0, "/" + bucket + req.url.path)
  {
    assert bucket + "." + domain == bucket + ['.'] + domain;
    FirstFieldOf(bucket, '.', domain);
  }

  /** A multipart-initiation query `uploads=` is signed, and left, as `uploads`. */
  lemma UploadsQueryExample(req: Request)
    requires req.url.rawQuery == "uploads="
    ensures CanonicalResource(req).0 == "/" + FirstField(CanonicalResource(req).1.host, '.') + req.url.path + "?uploads"
    ensures CanonicalResource(req).1.url.rawQuery == "uploads"
  {
    assert HasPrefix("uploads=", Subresources[10]);
    assert HasSuffix("uploads=", "=");
    assert TrimRightChar("uploads=", '=') == "uploads" by {
      assert "uploads="[..7] == "uploads";
    }
  }

  // ---------------------------------------------------------------------
  // stringToSignS3 and SignV2
  // ---------------------------------------------------------------------

  /**
   * The layout of the string to sign: the method and the three standard
   * header values each ended by a line break, then the canonical headers
   * and the canonical resource.
   */
  function Layout(verb: string, md5: string, contentType: string, date: string, amz: string, resource: string): string {
    verb + "\n" + (md5 + "\n" + (contentType + "\n" + (date + "\n" + (amz + resource))))
  }

  /** Two separator-free fields in front of a text split off as its first two fields. */
  lemma SplitTwoFields(a: string, b: string, rest: string, sep: char)
    requires sep !in a && sep !in b
    ensures Split(a + [sep] + (b + [sep] + rest), sep) == [a, b] + Split(rest, sep)
  {
    var r1 := b + [sep] + rest;
    SplitCons(b, sep, rest);
    SplitCons(a, sep, r1);
  }

  /** Four separator-free fields in front of a text split off as its first four fields. */
  lemma SplitFour(a: string, b: string, c: string, d: string, rest: string, sep: char)
    requires sep !in a && sep !in b && sep !in c && sep !in d
    ensures Split(a + [sep] + (b + [sep] + (c + [sep] + (d + [sep] + rest))), sep) == [a, b, c, d] + Split(rest, sep)
  {
    var r2 := c + [sep] + (d + [sep] + rest);
    SplitTwoFields(c, d, rest, sep);
    SplitTwoFields(a, b, r2, sep);
    assert [a, b] + ([c, d] + Split(rest, sep)) == [a, b, c, d] + Split(rest, sep);
  }

  /** The first four lines of a layout are its first four fields. */
  lemma LayoutFields(verb: string, md5: string, contentType: string, date: string, amz: string, resource: string)
    requires '\n' !in verb && '\n' !in md5 && '\n' !in contentType && '\n' !in date
    ensures |Split(Layout(verb, md5, contentType, date, amz, resource), '\n')| >= 5
    ensures Split(Layout(verb, md5, contentType, date, amz, resource), '\n')[..4] == [verb, md5, contentType, date]
  {
    var nl := ['\n'];
    assert "\n" == nl;
    var rest := amz + resource;
    assert Layout(verb, md5, contentType, date, amz, resource)
        == verb + nl + (md5 + nl + (contentType + nl + (date + nl + rest)));
    SplitFour(verb, md5, contentType, date, rest, '\n');
    var tail := Split(rest, '\n');
    assert ([verb, md5, contentType, date] + tail)[..4] == [verb, md5, contentType, date];
  }

  /** A layout ends with its canonical resource. */
  lemma LayoutEndsWithResource(verb: string, md5: string, contentType: string, date: string, amz: string, resource: string)
    ensures HasSuffix(Layout(verb, md5, contentType, date, amz, resource), resource)
  {
    var head := verb + "\n" + md5 + "\n" + contentType + "\n" + date + "\n" + amz;
    assert Layout(verb, md5, contentType, date, amz, resource) == head + resource;
    assert (head + resource)[|head|..] == resource;
  }

  /** Text found in the canonical headers of a layout is found in the layout. */
  lemma LayoutCovers(verb: string, md5: string, contentType: string, date: string, amz: string, resource: string, line: string)
    requires Contains(amz, line)
    ensures Contains(Layout(verb, md5, contentType, date, amz, resource), line)
  {
    ContainsBefore(amz, resource, line);
    ContainsAfter(date + "\n", amz + resource, line);
    ContainsAfter(contentType + "\n", date + "\n" + (amz + resource), line);
    ContainsAfter(md5 + "\n", contentType + "\n" + (date + "\n" + (amz + resource)), line);
    ContainsAfter(verb + "\n", md5 + "\n" + (contentType + "\n" + (date + "\n" + (amz + resource))), line);
  }

  /**
   * `stringToSignS3`, with the request the canonical resource leaves
   * behind: `Content-Md5`, `Content-Type` and `Date` are read from the
   * request's header.
   */
  function StringToSign(req: Request): (o: (string, Request))
    ensures o.1 == CanonicalResource(req).1
    ensures HasSuffix(o.0, CanonicalResource(req).0)
  {
    var (resource, after) := CanonicalResource(req);
    var h := req.header;
    LayoutEndsWithResource(req.verb, Get(h, "Content-Md5"), Get(h, "Content-Type"), Get(h, "Date"), CanonicalAmzHeaders(h), resource);
    (Layout(req.verb, Get(h, "Content-Md5"), Get(h, "Content-Type"), Get(h, "Date"), CanonicalAmzHeaders(h), resource),
     after)
  }

  /** The first four lines of the string to sign are the method and the three standard headers. */
  lemma StringToSignFields(req: Request)
    requires '\n' !in req.verb
    requires '\n' !in Get(req.header, "Content-Md5") && '\n' !in Get(req.header, "Content-Type")
    requires '\n' !in Get(req.header, "Date")
    ensures |Split(StringToSign(req).0, '\n')| >= 5
    ensures Split(StringToSign(req).0, '\n')[..4]
         == [req.verb, Get(req.header, "Content-Md5"), Get(req.header, "Content-Type"), Get(req.header, "Date")]
  {
    var h := req.header;
    LayoutFields(req.verb, Get(h, "Content-Md5"), Get(h, "Content-Type"), Get(h, "Date"),
                 CanonicalAmzHeaders(h), CanonicalResource(req).0);
  }

  /** The header after the session token, if any, is added. */
  function WithToken(creds: Credentials, h: Header): (r: Header)
    requires DistinctKeys(h)
    ensures DistinctKeys(r)
    ensures creds.sessionToken != "" ==> Lookup(r, Canon("X-Amz-Security-Token")) == Some([creds.sessionToken])
    ensures creds.sessionToken == "" ==> r == h
    ensures forall k :: k != Canon("X-Amz-Security-Token") ==> Lookup(r, k) == Lookup(h, k)
  {
    if creds.sessionToken != "" then Set(h, "X-Amz-Security-Token", creds.sessionToken) else h
  }

  /** The string `SignV2` signs for `req` at time `date`. */
  function SignedString(creds: Credentials, req: Request, date: string): string
    requires DistinctKeys(req.header)
  {
    StringToSign(Prepare(req.(header := WithToken(creds, req.header)), date)).0
  }

  /** The `Authorization` header value: the scheme, the access key id, a colon and the signature. */
  function AuthorizationValue(id: string, signature: string): string {
    "AWS " + id + ":" + signature
  }

  /**
   * `SignV2`: the session token header when there is a token, the prepared
   * request, and the `Authorization` header computed over the string to
   * sign. `sign(secret, text)` stands for base64 of HMAC-SHA1.
   */
  function Sign(creds: Credentials, req: Request, date: string, sign: (string, string) -> string): (r: Request)
    requires DistinctKeys(req.header)
    ensures DistinctKeys(r.header)
    ensures Get(r.header, "Authorization")
         == AuthorizationValue(creds.accessKeyId, sign(creds.secretAccessKey, SignedString(creds, req, date)))
    ensures Get(r.header, "x-amz-date") == date
    ensures r.url.opaquePart == "" && r.verb == req.verb && r.body == req.body
    ensures var prepared := Prepare(req.(header := WithToken(creds, req.header)), date);
            && (forall k :: k != Canon("Authorization") ==> Lookup(r.header, k) == Lookup(prepared.header, k))
            && r.url.path == prepared.url.path && r.contentLength == prepared.contentLength
    ensures HasSuffix(SignedString(creds, req, date), CanonicalResource(r).0)
  {
    var prepared := Prepare(req.(header := WithToken(creds, req.header)), date);
    var (toSign, after) := StringToSign(prepared);
    CanonicalResourceIdempotent(prepared);
    ResourceIgnoresHeader(after, Set(after.header, "Authorization", AuthorizationValue(creds.accessKeyId, sign(creds.secretAccessKey, toSign))));
    var auth := AuthorizationValue(creds.accessKeyId, sign(creds.secretAccessKey, toSign));
    assert Canon("Authorization") != Canon("x-amz-date") by {
      assert |Canon("Authorization")| != |Canon("x-amz-date")|;
    }
    after.(header := Set(after.header, "Authorization", auth))
  }

  /** The access key id and the signature can be read back from the header when the id has no colon. */
  function ParseAuthorization(value: string): Option<(string, string)> {
    if !HasPrefix(value, "AWS ") then None
    else
      var rest := value[4..];
      var i := IndexOf(rest, ':');
      if i == |rest| then None else Some((rest[..i], rest[i + 1..]))
  }

  lemma AuthorizationRoundTrip(id: string, signature: string)
    requires ':' !in id
    ensures ParseAuthorization(AuthorizationValue(id, signature)) == Some((id, signature))
  {
    var v := AuthorizationValue(id, signature);
    assert v[4..] == id + [':'] + signature;
    IndexOfAfter(id, ':', signature);
    assert (id + [':'] + signature)[..|id|] == id;
  }

  /** Token characters are not white space, so standardizing a token name only lower-cases it. */
  lemma TokenStandardized(name: string)
    requires IsToken(name)
    ensures Standardized(name) == ToLower(name)
  {
    forall k | 0 <= k < |name|
      ensures !IsSpace(name[k])
    {
      assert IsTokenChar(name[k]);
    }
    TrimSpaceNoSpace(name);
  }

  /**
   * A header set under a token name whose lower-case form is an `x-amz`
   * name is covered: the canonical headers hold the lower-case name, a
   * colon and the value with its line breaks turned into spaces.
   */
  lemma SetHeaderCovered(h: Header, n: string, value: string)
    requires DistinctKeys(h) && IsToken(n) && IsAmz(ToLower(n))
    requires Lookup(h, Canon(n)) == Some([value])
    ensures Contains(CanonicalAmzHeaders(h), ToLower(n) + ":" + ReplaceAll(value, "\n", " "))
  {
    var key := Canon(n);
    var name := ToLower(n);
    CanonIsToken(n);
    TokenStandardized(key);
    LowerCanon(n);
    CanonIgnoresCase(n);
    assert Canon(name) == key;
    assert Standardized(key) == name;
    assert Get(h, name) == value;
    AmzHeaderCovered(h, name);
  }

  lemma DateNameToken()
    ensures IsToken("x-amz-date")
  {
  }

  lemma DateNameLower()
    ensures ToLower("x-amz-date") == "x-amz-date"
  {
  }

  lemma DateNameIsAmz()
    ensures IsAmz("x-amz-date")
  {
    assert "x-amz-date"[..5] == "x-amz";
  }

  lemma TokenNameToken()
    ensures IsToken("X-Amz-Security-Token")
  {
  }

  lemma TokenNameLower()
    ensures ToLower("X-Amz-Security-Token") == "x-amz-security-token"
  {
  }

  lemma TokenNameIsAmz()
    ensures IsAmz("x-amz-security-token")
  {
    assert "x-amz-security-token"[..5] == "x-amz";
  }

  /**
   * The signature covers the request time: the string signed contains the
   * `x-amz-date` line with the time that was set.
   */
  lemma DateIsSigned(creds: Credentials, req: Request, date: string)
    requires DistinctKeys(req.header)
    ensures Contains(SignedString(creds, req, date), "x-amz-date" + ":" + ReplaceAll(date, "\n", " "))
  {
    var prepared := Prepare(req.(header := WithToken(creds, req.header)), date);
    DateNameToken();
    DateNameLower();
    DateNameIsAmz();
    SetHeaderCovered(prepared.header, "x-amz-date", date);
    SignedStringCovers(prepared, ToLower("x-amz-date") + ":" + ReplaceAll(date, "\n", " "));
  }

  /**
   * With temporary credentials, the signature covers the session token: the
   * string signed contains its `x-amz-security-token` line.
   */
  lemma TokenIsSigned(creds: Credentials, req: Request, date: string)
    requires DistinctKeys(req.header) && creds.sessionToken != ""
    ensures Contains(SignedString(creds, req, date), "x-amz-security-token" + ":" + ReplaceAll(creds.sessionToken, "\n", " "))
  {
    var withToken := WithToken(creds, req.header);
    var prepared := Prepare(req.(header := withToken), date);
    TokenNameToken();
    TokenNameLower();
    TokenNameIsAmz();
    assert Canon("X-Amz-Security-Token") != Canon("x-amz-date") by {
      assert |Canon("X-Amz-Security-Token")| != |Canon("x-amz-date")|;
    }
    assert Lookup(prepared.header, Canon("X-Amz-Security-Token")) == Some([creds.sessionToken]);
    SetHeaderCovered(prepared.header, "X-Amz-Security-Token", creds.sessionToken);
    SignedStringCovers(prepared, ToLower("X-Amz-Security-Token") + ":" + ReplaceAll(creds.sessionToken, "\n", " "));
  }

  /** Text found in the canonical headers is found in the string to sign. */
  lemma SignedStringCovers(req: Request, line: string)
    requires Contains(CanonicalAmzHeaders(req.header), line)
    ensures Contains(StringToSign(req).0, line)
  {
    var h := req.header;
    LayoutCovers(req.verb, Get(h, "Content-Md5"), Get(h, "Content-Type"), Get(h, "Date"),
                 CanonicalAmzHeaders(h), CanonicalResource(req).0, line);
  }
}
