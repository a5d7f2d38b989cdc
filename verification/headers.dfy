/**
 * Go's `http.Header` as the request signer uses it: a map from header keys
 * to lists of values, written here as a list of entries with distinct keys
 * in the map's (arbitrary) iteration order. `Get` and `Set` canonicalise
 * the name they are given, as `textproto.CanonicalMIMEHeaderKey` does.
 */
module Headers {
  import opened Common
  import opened Text

  type Header = seq<(string, seq<string>)>

  /** A character allowed in a header field name (a `token` character of RFC 7230, ASCII only). */
  predicate IsTokenChar(c: char) {
    || ('a' <= c <= 'z') || ('A' <= c <= 'Z') || ('0' <= c <= '9')
    || c == '!' || c == '#' || c == '$' || c == '%' || c == '&' || c == '\'' || c == '*'
    || c == '+' || c == '-' || c == '.' || c == '^' || c == '_' || c == '`' || c == '|' || c == '~'
  }

  /** A name made only of token characters. */
  predicate IsToken(name: string) {
    forall i :: 0 <= i < |name| ==> IsTokenChar(name[i])
  }

  /** The first letter and every letter after a hyphen upper-cased, all other letters lower-cased. */
  function FoldCase(name: string): (r: string)
    ensures |r| == |name|
  {
    seq(|name|, i requires 0 <= i < |name| =>
      if i == 0 || name[i - 1] == '-' then UpperChar(name[i]) else LowerChar(name[i]))
  }

  /**
   * The canonical form of a header name (`CanonicalMIMEHeaderKey`): a name
   * made of token characters has its case folded; any other name is left
   * as it is.
   */
  function Canon(name: string): (key: string)
    ensures |key| == |name|
    ensures !IsToken(name) ==> key == name
  {
    if IsToken(name) then FoldCase(name) else name
  }

  /** Case mapping keeps a token character a token character. */
  lemma CaseKeepsToken(c: char)
    requires IsTokenChar(c)
    ensures IsTokenChar(UpperChar(c)) && IsTokenChar(LowerChar(c))
  {
  }

  /** The canonical form of a token name is a token name. */
  lemma CanonIsToken(name: string)
    requires IsToken(name)
    ensures IsToken(Canon(name))
  {
    forall i | 0 <= i < |name|
      ensures IsTokenChar(Canon(name)[i])
    {
      CaseKeepsToken(name[i]);
    }
  }

  /** Canonicalising a canonical name changes nothing. */
  lemma CanonIdempotent(name: string)
    ensures Canon(Canon(name)) == Canon(name)
  {
    if IsToken(name) {
      var key := FoldCase(name);
      CanonIsToken(name);
      assert Canon(key) == FoldCase(key);
      forall i | 0 <= i < |name|
        ensures FoldCase(key)[i] == key[i]
      {
        FoldStable(name, key, i);
      }
    }
  }

  lemma FoldStable(name: string, key: string, i: nat)
    requires key == FoldCase(name) && i < |name|
    ensures FoldCase(key)[i] == key[i]
  {
    CaseChar(name[i]);
    if i > 0 {
      CaseChar(name[i - 1]);
      assert key[i - 1] == '-' <==> name[i - 1] == '-';
    }
  }

  /** The canonical form of a token name does not depend on the case it is written in. */
  lemma CanonIgnoresCase(name: string)
    requires IsToken(name)
    ensures IsToken(ToLower(name))
    ensures Canon(ToLower(name)) == Canon(name)
  {
    var lower := ToLower(name);
    forall i | 0 <= i < |name|
      ensures IsTokenChar(lower[i])
    {
      CaseKeepsToken(name[i]);
    }
    forall i | 0 <= i < |name|
      ensures Canon(lower)[i] == Canon(name)[i]
    {
      CaseChar(name[i]);
      if i > 0 { CaseChar(name[i - 1]); }
    }
  }

  /** Lower-casing a canonical name gives the lower-cased name. */
  lemma LowerCanon(name: string)
    ensures ToLower(Canon(name)) == ToLower(name)
  {
    if IsToken(name) {
      forall i | 0 <= i < |name|
        ensures ToLower(Canon(name))[i] == ToLower(name)[i]
      {
        CaseChar(name[i]);
      }
    }
  }

  /** Case folding works word by word: the words on either side of a hyphen are folded on their own. */
  lemma FoldWords(a: string, b: string)
    ensures FoldCase(a + "-" + b) == FoldCase(a) + "-" + FoldCase(b)
  {
    var s := a + "-" + b;
    var r := FoldCase(a) + "-" + FoldCase(b);
    forall i | 0 <= i < |s|
      ensures FoldCase(s)[i] == r[i]
    {
      if i < |a| {
        assert s[i] == a[i];
        if i > 0 { assert s[i - 1] == a[i - 1]; }
      } else if i > |a| + 1 {
        assert s[i] == b[i - |a| - 1] && s[i - 1] == b[i - |a| - 2];
      } else if i == |a| + 1 {
        assert s[i] == b[0] && s[i - 1] == '-';
      }
    }
  }

  /** Canonicalisation works word by word on names made of token characters. */
  lemma CanonWords(a: string, b: string)
    requires IsToken(a) && IsToken(b)
    ensures Canon(a + "-" + b) == Canon(a) + "-" + Canon(b)
  {
    var s := a + "-" + b;
    forall i | 0 <= i < |s|
      ensures IsTokenChar(s[i])
    {
      if i < |a| { assert s[i] == a[i]; }
      else if i > |a| { assert s[i] == b[i - |a| - 1]; }
    }
    FoldWords(a, b);
  }

  predicate DistinctKeys(h: Header) {
    forall i, j :: 0 <= i < j < |h| ==> h[i].0 != h[j].0
  }

  /** The values stored under exactly `key`, if any. */
  function Lookup(h: Header, key: string): (r: Option<seq<string>>)
    ensures r.Some? ==> (key, r.value) in h
    ensures r.None? <==> forall i :: 0 <= i < |h| ==> h[i].0 != key
    decreases |h|
  {
    if |h| == 0 then None
    else if h[0].0 == key then Some(h[0].1)
    else Lookup(h[1..], key)
  }

  /** `Header.Get`: the first value stored under the canonical form of `name`, or `""`. */
  function Get(h: Header, name: string): string {
    match Lookup(h, Canon(name))
    case None => ""
    case Some(values) => if |values| == 0 then "" else values[0]
  }

  /** `values` stored under `key`, in place of the entry already there or as a new last entry. */
  function Store(h: Header, key: string, values: seq<string>): (r: Header)
    requires DistinctKeys(h)
    ensures DistinctKeys(r)
    ensures Lookup(r, key) == Some(values)
    ensures forall k :: k != key ==> Lookup(r, k) == Lookup(h, k)
    decreases |h|
  {
    if |h| == 0 then [(key, values)]
    else if h[0].0 == key then [(key, values)] + h[1..]
    else
      var rest := Store(h[1..], key, values);
      assert forall i :: 0 <= i < |rest| ==> rest[i].0 != h[0].0 by {
        forall i | 0 <= i < |rest|
          ensures rest[i].0 != h[0].0
        {
          assert Lookup(rest, rest[i].0).Some?;
        }
      }
      [h[0]] + rest
  }

  /**
   * `Header.Set`: `value` becomes the only value under the canonical form of
   * `name`, so `Get` returns it under that name, and every name with a
   * different canonical form reads as before.
   */
  function Set(h: Header, name: string, value: string): (r: Header)
    requires DistinctKeys(h)
    ensures DistinctKeys(r)
    ensures Lookup(r, Canon(name)) == Some([value])
    ensures forall k :: k != Canon(name) ==> Lookup(r, k) == Lookup(h, k)
    ensures Get(r, name) == value
    ensures forall other :: Canon(other) != Canon(name) ==> Get(r, other) == Get(h, other)
  {
    Store(h, Canon(name), [value])
  }

  /** With distinct keys, the entry stored under a key is the one found for it. */
  lemma {:induction false} LookupMember(h: Header, key: string, values: seq<string>)
    requires DistinctKeys(h) && (key, values) in h
    ensures Lookup(h, key) == Some(values)
    decreases |h|
  {
    if h[0] != (key, values) {
      assert (key, values) in h[1..];
      LookupMember(h[1..], key, values);
    }
  }

  /** Lookups do not depend on the map's iteration order. */
  lemma LookupPermutation(h1: Header, h2: Header, key: string)
    requires DistinctKeys(h1) && DistinctKeys(h2) && multiset(h1) == multiset(h2)
    ensures Lookup(h1, key) == Lookup(h2, key)
  {
    match Lookup(h1, key)
    case Some(v) =>
      assert (key, v) in multiset(h2);
      LookupMember(h2, key, v);
    case None =>
      if Lookup(h2, key).Some? {
        var v := Lookup(h2, key).value;
        assert (key, v) in multiset(h1);
        LookupMember(h1, key, v);
      }
  }

  lemma GetPermutation(h1: Header, h2: Header, name: string)
    requires DistinctKeys(h1) && DistinctKeys(h2) && multiset(h1) == multiset(h2)
    ensures Get(h1, name) == Get(h2, name)
  {
    LookupPermutation(h1, h2, Canon(name));
  }
}
