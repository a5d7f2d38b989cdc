/**
 * The Go sample's choice of signing region and addressing style from the
 * configured endpoint: a bare address (digits, dots and colons) forces
 * path-style requests in the default region; an AWS regional endpoint
 * `s3-<region>.…amazonaws…` names its region; everything else uses the
 * default region with virtual-host addressing.
 */
module Endpoint {
  import opened Text

  const DefaultRegion: string := "us-east-1"

  /** A character the pattern `^[0-9.:]*$` admits. */
  predicate IsAddressChar(c: char) {
    '0' <= c <= '9' || c == '.' || c == ':'
  }

  predicate IsAddress(endpoint: string) {
    forall k :: 0 <= k < |endpoint| ==> IsAddressChar(endpoint[k])
  }

  /** `regionAndPathStyleFromEndpoint`: the region and whether to force path-style addressing. */
  function RegionAndPathStyle(endpoint: string): (r: (string, bool))
    ensures r.1 <==> IsAddress(endpoint)
    ensures r.0 != DefaultRegion ==> Contains(endpoint, "amazonaws") && HasPrefix(endpoint, "s3-")
    ensures r.1 ==> r.0 == DefaultRegion
  {
    if IsAddress(endpoint) then (DefaultRegion, true)
    else if Contains(endpoint, "amazonaws") && HasPrefix(endpoint, "s3.") then (DefaultRegion, false)
    else if Contains(endpoint, "amazonaws") && HasPrefix(endpoint, "s3-") then
      (TrimPrefix(FirstField(endpoint, '.'), "s3-"), false)
    else (DefaultRegion, false)
  }

  /** A regional endpoint `s3-<region>.<rest>` on an amazonaws domain yields exactly `<region>`. */
  lemma RegionalEndpoint(region: string, rest: string)
    requires '.' !in region && Contains(rest, "amazonaws")
    ensures RegionAndPathStyle("s3-" + region + "." + rest) == (region, false)
  {
    var e := "s3-" + region + "." + rest;
    assert !IsAddressChar(e[0]);
    assert e == ("s3-" + region) + ['.'] + rest;
    assert HasPrefix(e, "s3-");
    assert !HasPrefix(e, "s3.") by { assert e[2] == '-'; }
    ContainsInfix("s3-" + region + ".", "amazonaws", rest[..0]);
    ContainsAfter("s3-" + region + ".", rest, "amazonaws");
    FirstFieldOf("s3-" + region, '.', rest);
    assert HasPrefix("s3-" + region, "s3-");
  }

  /** Any endpoint with a letter in it is addressed virtual-host style. */
  lemma NamedHostNotPathStyle(endpoint: string, k: nat)
    requires k < |endpoint| && 'a' <= endpoint[k] <= 'z'
    ensures !RegionAndPathStyle(endpoint).1
  {
  }

  /** A local address, and the empty endpoint, force path style in the default region. */
  lemma AddressExamples()
    ensures RegionAndPathStyle("127.0.0.1:9000") == ("us-east-1", true)
    ensures RegionAndPathStyle("") == ("us-east-1", true)
  {
    assert IsAddress("127.0.0.1:9000");
  }

  /** A regional endpoint on the `amazonaws.com` domain names its region. */
  lemma RegionalDotCom(region: string)
    requires '.' !in region
    ensures RegionAndPathStyle("s3-" + region + ".amazonaws.com") == (region, false)
  {
    AmazonawsDomain();
    assert "s3-" + region + ".amazonaws.com" == "s3-" + region + "." + "amazonaws.com";
    RegionalEndpoint(region, "amazonaws.com");
  }

  lemma RegionalExample()
    ensures RegionAndPathStyle("s3-us-west-2.amazonaws.com") == ("us-west-2", false)
  {
    RegionalExampleSplit();
    NoDot("us-west-2");
    RegionalDotCom("us-west-2");
  }

  lemma RegionalExampleSplit()
    ensures "s3-us-west-2.amazonaws.com" == "s3-" + "us-west-2" + ".amazonaws.com"
  {
  }

  /** The regional form is read literally: `s3-external-1` yields the region `external-1`. */
  lemma ExternalEndpointExample()
    ensures RegionAndPathStyle("s3-external-1.amazonaws.com") == ("external-1", false)
  {
    ExternalExampleSplit();
    NoDot("external-1");
    RegionalDotCom("external-1");
  }

  lemma ExternalExampleSplit()
    ensures "s3-external-1.amazonaws.com" == "s3-" + "external-1" + ".amazonaws.com"
  {
  }

  /** A region name made of letters, digits and hyphens has no dot. */
  lemma NoDot(region: string)
    requires forall k :: 0 <= k < |region| ==> region[k] == '-' || 'a' <= region[k] <= 'z' || '0' <= region[k] <= '9'
    ensures '.' !in region
  {
  }

  lemma AmazonawsDomain()
    ensures Contains("amazonaws.com", "amazonaws")
  {
    assert HasPrefix("amazonaws.com", "amazonaws");
  }

  /** The global endpoint uses the default region, virtual-host style. */
  lemma GlobalEndpointExample()
    ensures RegionAndPathStyle("s3.amazonaws.com") == ("us-east-1", false)
  {
    AmazonawsDomain();
    assert "s3.amazonaws.com" == "s3." + "amazonaws.com";
    ContainsAfter("s3.", "amazonaws.com", "amazonaws");
    assert !IsAddressChar("s3.amazonaws.com"[0]);
    assert HasPrefix("s3.amazonaws.com", "s3.");
  }

  /** A named host whose second character is not `3` is not an S3 endpoint: default region, virtual-host style. */
  lemma NonS3Host(endpoint: string, k: nat)
    requires k < |endpoint| && 'a' <= endpoint[k] <= 'z'
    requires |endpoint| > 1 && endpoint[1] != '3'
    ensures RegionAndPathStyle(endpoint) == (DefaultRegion, false)
  {
    NamedHostNotPathStyle(endpoint, k);
  }

  /** A host outside AWS uses the default region, virtual-host style. */
  lemma OtherHostExample()
    ensures RegionAndPathStyle("store.example.com") == ("us-east-1", false)
  {
    var e := "store.example.com";
    assert e[0] == 's' && e[1] == 't';
    NonS3Host(e, 0);
  }
}
