/** Parsed image references, as produced by the reference parser the source
    imports (`reference.Parse`). The parser itself is not modelled: its result
    is this datatype, and its grammar enters only as `WellFormed`. */
module Refs {
  import opened Strs
  import opened Faults

  /** A parsed reference: the repository name (registry host included, as
      written), an optional tag and an optional digest. The parser's result
      implements `reference.Tagged` exactly when `tag` is present. */
  datatype Reference = Reference(name: string, tag: Option<string>, digest: Option<string>)

  /** `@digest`, or nothing when there is no digest. */
  function DigestSuffix(d: Option<string>): string {
    match d case Some(x) => "@" + x case None => ""
  }

  /** The reference's `String()`: `name`, then `:tag` when tagged, then
      `@digest` when it carries a digest. */
  function ToString(r: Reference): (s: string)
    ensures HasPrefix(s, r.name)
    ensures r.tag.None? && r.digest.None? ==> s == r.name
  {
    r.name
    + (match r.tag case Some(t) => ":" + t case None => "")
    + DigestSuffix(r.digest)
  }

  /** What the reference grammar guarantees about a parsed reference, as far
      as `ToString` needs it: no `@` outside the digest; a tag is non-empty and
      holds neither `:` nor `/`; every `:` in the name (a registry port) comes
      before some `/` of the name. */
  predicate WellFormed(r: Reference) {
    && '@' !in r.name
    && (forall i :: 0 <= i < |r.name| && r.name[i] == ':' ==> LastIndex(r.name, '/') > i)
    && (r.tag.Some? ==> r.tag.value != "" && ':' !in r.tag.value && '/' !in r.tag.value && '@' !in r.tag.value)
    && (r.digest.Some? ==> '@' !in r.digest.value)
  }

  /** Splits `s` at its first `@`: the text before it and, if there is one,
      the text after it. */
  function SplitDigest(s: string): (r: (string, Option<string>))
    ensures r.1.None? ==> r.0 == s && '@' !in s
    ensures r.1.Some? ==> s == r.0 + "@" + r.1.value && '@' !in r.0
  {
    if s == [] then (s, None)
    else if s[0] == '@' then ([], Some(s[1..]))
    else
      var rest := SplitDigest(s[1..]);
      assert s == [s[0]] + s[1..];
      ([s[0]] + rest.0, rest.1)
  }

  /** Reads a reference back from its string form: the digest after the
      first `@`, then the tag after the last `:` if that `:` follows the last
      `/`. */
  function FromString(s: string): Reference {
    var (named, digest) := SplitDigest(s);
    FromNamed(named, digest)
  }

  /** The name and tag of the text before the digest. */
  function FromNamed(named: string, digest: Option<string>): Reference {
    var colon := LastIndex(named, ':');
    if colon > LastIndex(named, '/') then
      Reference(named[..colon], Some(named[colon + 1..]), digest)
    else
      Reference(named, None, digest)
  }

  lemma {:induction false} SplitDigestOf(a: string, d: Option<string>)
    requires '@' !in a
    ensures SplitDigest(a + DigestSuffix(d)) == (a, d)
  {
    var s := a + DigestSuffix(d);
    if a == [] {
      assert s == DigestSuffix(d);
      if d.Some? {
        assert s[1..] == d.value;
      }
    } else {
      assert s[0] == a[0];
      assert s[1..] == a[1..] + DigestSuffix(d);
      SplitDigestOf(a[1..], d);
      assert [a[0]] + a[1..] == a;
    }
  }

  /** `ToString` loses nothing on well-formed references. */
  lemma ToStringRoundTrip(r: Reference)
    requires WellFormed(r)
    ensures FromString(ToString(r)) == r
  {
    match r.tag {
      case Some(t) =>
        var named := r.name + [':'] + t;
        assert ToString(r) == named + DigestSuffix(r.digest);
        SplitDigestOf(named, r.digest);
        TaggedRoundTrip(r.name, t, r.digest);
      case None =>
        assert ToString(r) == r.name + DigestSuffix(r.digest);
        SplitDigestOf(r.name, r.digest);
        UntaggedSeams(r.name);
    }
  }

  lemma TaggedRoundTrip(name: string, t: string, d: Option<string>)
    requires ':' !in t && '/' !in t
    requires forall i :: 0 <= i < |name| && name[i] == ':' ==> LastIndex(name, '/') > i
    ensures FromNamed(name + [':'] + t, d) == Reference(name, Some(t), d)
  {
    var named := name + [':'] + t;
    TaggedSeams(name, t);
    var colon := LastIndex(named, ':');
    assert colon == |name| && LastIndex(named, '/') < colon;
    assert FromNamed(named, d) == Reference(named[..colon], Some(named[colon + 1..]), d);
    assert named[..colon] == name;
    assert named[colon + 1..] == t;
  }

  /** In `name:tag` the tag's colon is the last colon, and it follows the
      last slash. */
  lemma TaggedSeams(name: string, t: string)
    requires ':' !in t && '/' !in t
    requires forall i :: 0 <= i < |name| && name[i] == ':' ==> LastIndex(name, '/') > i
    ensures LastIndex(name + [':'] + t, ':') == |name|
    ensures LastIndex(name + [':'] + t, '/') < |name|
  {
    LastIndexAtSeam(name, t, ':');
    LastIndexAppendAbsent(name + [':'], t, '/');
    LastIndexAppendAbsent(name, [':'], '/');
  }

  /** In a well-formed untagged name no colon follows the last slash. */
  lemma UntaggedSeams(name: string)
    requires forall i :: 0 <= i < |name| && name[i] == ':' ==> LastIndex(name, '/') > i
    ensures LastIndex(name, ':') <= LastIndex(name, '/')
  {
    var colon := LastIndex(name, ':');
    if colon >= 0 {
      assert name[colon] == ':';
    }
  }

  /** Distinct well-formed references have distinct string forms. */
  lemma ToStringInjective(a: Reference, b: Reference)
    requires WellFormed(a) && WellFormed(b)
    requires ToString(a) == ToString(b)
    ensures a == b
  {
    ToStringRoundTrip(a);
    ToStringRoundTrip(b);
  }
}
