/** Classification of a record's base image (`isLocal`, `localFrom`,
    `remoteFrom`) and the file name of the pull-cache marker of a remote
    image. */
module Classify {
  import opened Strs
  import opened Faults
  import opened Refs
  import opened Extract

  /** `isLocal`: the base image is tagged, and the tag is exactly `local`. */
  predicate IsLocal(rec: DepRecord) {
    rec.from.Some? && rec.from.value.tag == Some("local")
  }

  /** A record builds locally exactly when its base image carries the tag
      `local`, whatever its name and digest: untagged and digest-only images
      are never local, and neither is a record without a base image. For a
      well-formed image the tag is the one its printed form carries. */
  lemma IsLocalCases(r: Reference, paths: seq<string>)
    ensures IsLocal(DepRecord(Some(r), paths)) <==> r.tag == Some("local")
    ensures r.tag.None? ==> !IsLocal(DepRecord(Some(r), paths))
    ensures !IsLocal(DepRecord(None, paths))
    ensures WellFormed(r) ==>
      (IsLocal(DepRecord(Some(r), paths)) <==> FromString(ToString(r)).tag == Some("local"))
  {
    if WellFormed(r) {
      ToStringRoundTrip(r);
    }
  }

  /** `localFrom` exactly as the source writes it. The statement that strips
      the registry URL sits inside the mismatch branch, after the fatal log
      call, so it is never reached; a matching name skips that branch and
      reaches the "doesn't parse" fatal instead. A record without a base
      image fails too: formatting its absent reference panics. */
  function LocalFromAsWritten(rec: DepRecord, url: string): (r: Result<string>)
    ensures r.Fatal?
    ensures r.fault.RegistryMismatch? <==> rec.from.Some? && !HasPrefix(rec.from.value.name, url)
    ensures r.fault.NotNamed? <==> rec.from.Some? && HasPrefix(rec.from.value.name, url)
  {
    match rec.from {
      case None => Fatal(NoBaseImage)
      case Some(ref) =>
        IndexZeroIffPrefix(ref.name, url);
        if Index(ref.name, url) != 0 then Fatal(RegistryMismatch(ToString(ref), url))
        else Fatal(NotNamed(ToString(ref)))
    }
  }

  /** The smallest recipe that shows the discrepancy: a local base image on
      the configured registry is rejected as unparsable. */
  lemma LocalFromAsWrittenRejectsMatchingRegistry()
    ensures LocalFromAsWritten(
      DepRecord(Some(Reference("registry.example.com/base", Some("local"), None)), []),
      "registry.example.com/")
      == Fatal(NotNamed("registry.example.com/base:local"))
  {
    var name := "registry.example.com/base";
    var url := "registry.example.com/";
    assert HasPrefix(name, url) by {
      assert name[..|url|] == url;
    }
  }

  /** `localFrom` as it is evidently meant to work: the build target named by
      the part of the image name after the registry URL, and a fatal registry
      mismatch when the name does not start with that URL. */
  function LocalFrom(rec: DepRecord, url: string): (r: Result<string>)
    ensures r.Ok? <==> rec.from.Some? && HasPrefix(rec.from.value.name, url)
    ensures r.Ok? ==> url + r.value == rec.from.value.name
    ensures r.Fatal? && rec.from.Some? ==> r.fault == RegistryMismatch(ToString(rec.from.value), url)
    ensures rec.from.None? ==> r == Fatal(NoBaseImage)
  {
    match rec.from {
      case None => Fatal(NoBaseImage)
      case Some(ref) =>
        IndexZeroIffPrefix(ref.name, url);
        if Index(ref.name, url) != 0 then Fatal(RegistryMismatch(ToString(ref), url))
        else
          assert ref.name == url + ref.name[|url|..];
          Ok(ref.name[|url|..])
    }
  }

  /** The recipe that shows the discrepancy builds on the local `base` target
      once the registry URL is stripped. */
  lemma LocalFromStripsRegistry()
    ensures LocalFrom(
      DepRecord(Some(Reference("registry.example.com/base", Some("local"), None)), []),
      "registry.example.com/")
      == Ok("base")
  {
    var name := "registry.example.com/base";
    var url := "registry.example.com/";
    assert name[..|url|] == url;
    assert name[|url|..] == "base";
  }

  /** `remoteFrom`: the base image's full string form; formatting an absent
      reference panics. */
  function RemoteFrom(rec: DepRecord): (r: Result<string>)
    ensures r.Ok? <==> rec.from.Some?
    ensures r.Ok? && WellFormed(rec.from.value) ==> FromString(r.value) == rec.from.value
  {
    match rec.from {
      case None => Fatal(NoBaseImage)
      case Some(ref) =>
        if WellFormed(ref) then ToStringRoundTrip(ref); Ok(ToString(ref))
        else Ok(ToString(ref))
    }
  }

  // ---------------------------------------------------------------------
  // Marker file names for remote images

  /** The marker file name as the source builds it: `_`, then `/`, then `:`
      replaced everywhere, and `.image` appended. */
  function MarkerName(remote: string): (f: string)
    ensures f == Escape(remote) + ".image"
    ensures '/' !in f[..|f| - 6] && ':' !in f[..|f| - 6]
  {
    var f := Chain(remote);
    ChainIsEscape(remote);
    f + ".image"
  }

  /** What each character becomes in a marker file name. */
  function EscapeChar(c: char): string {
    if c == '_' then "_u_"
    else if c == '/' then "_s_"
    else if c == ':' then "_c_"
    else [c]
  }

  /** The single-pass, per-character form of the escaping. */
  function Escape(s: string): (r: string)
    ensures '/' !in r && ':' !in r
  {
    if s == [] then [] else EscapeChar(s[0]) + Escape(s[1..])
  }

  /** The three replacements, in the order the source applies them. */
  function Chain(s: string): string {
    ReplaceAll(ReplaceAll(ReplaceAll(s, '_', "_u_"), '/', "_s_"), ':', "_c_")
  }

  lemma ChainAppend(a: string, b: string)
    ensures Chain(a + b) == Chain(a) + Chain(b)
  {
    var a1, b1 := ReplaceAll(a, '_', "_u_"), ReplaceAll(b, '_', "_u_");
    ReplaceAllAppend(a, b, '_', "_u_");
    var a2, b2 := ReplaceAll(a1, '/', "_s_"), ReplaceAll(b1, '/', "_s_");
    ReplaceAllAppend(a1, b1, '/', "_s_");
    ReplaceAllAppend(a2, b2, ':', "_c_");
  }

  lemma ChainChar(c: char)
    ensures Chain([c]) == EscapeChar(c)
  {
    ReplaceAllSingle(c, '_', "_u_");
    if c == '_' {
      ReplaceAllAbsent("_u_", '/', "_s_");
      ReplaceAllAbsent("_u_", ':', "_c_");
    } else if c == '/' {
      ReplaceAllSingle(c, '/', "_s_");
      ReplaceAllAbsent("_s_", ':', "_c_");
    } else {
      ReplaceAllSingle(c, '/', "_s_");
      ReplaceAllSingle(c, ':', "_c_");
    }
  }

  /** The three chained replacements are the per-character substitution: no
      replacement text introduces a character a later replacement rewrites. */
  lemma {:induction false} ChainIsEscape(s: string)
    ensures Chain(s) == Escape(s)
  {
    if s != [] {
      var c, rest := s[0], s[1..];
      ChainIsEscape(rest);
      assert s == [c] + rest;
      ChainAppend([c], rest);
      ChainChar(c);
      assert Escape(s) == EscapeChar(c) + Escape(rest);
    }
  }

  /** Reads an escaped name back, refusing text no escaping produces. */
  function Unescape(f: string): Option<string> {
    if f == [] then Some([])
    else if f[0] == '_' then
      if |f| >= 3 && f[2] == '_' && (f[1] == 'u' || f[1] == 's' || f[1] == 'c') then
        match Unescape(f[3..]) {
          case None => None
          case Some(rest) => Some([if f[1] == 'u' then '_' else if f[1] == 's' then '/' else ':'] + rest)
        }
      else None
    else if f[0] == '/' || f[0] == ':' then None
    else
      match Unescape(f[1..]) {
        case None => None
        case Some(rest) => Some([f[0]] + rest)
      }
  }

  /** Reading back undoes escaping: the escaped name determines the name. */
  lemma {:induction false} UnescapeEscape(s: string)
    ensures Unescape(Escape(s)) == Some(s)
  {
    if s != [] {
      var c, rest := s[0], s[1..];
      UnescapeEscape(rest);
      assert Escape(s) == EscapeChar(c) + Escape(rest);
      UnescapeChar(c, Escape(rest));
      assert s == [c] + rest;
    }
  }

  /** Reading back one escaped character. */
  lemma UnescapeChar(c: char, t: string)
    ensures Unescape(EscapeChar(c) + t) ==
      match Unescape(t) { case None => None case Some(r) => Some([c] + r) }
  {
    var e := EscapeChar(c) + t;
    if c == '_' || c == '/' || c == ':' {
      assert e[..3] == EscapeChar(c);
      assert e[3..] == t;
    } else {
      assert e[0] == c;
      assert e[1..] == t;
    }
  }

  /** Distinct remote images never share a marker file. */
  lemma MarkerNameInjective(a: string, b: string)
    requires MarkerName(a) == MarkerName(b)
    ensures a == b
  {
    var ea := Escape(a);
    var eb := Escape(b);
    assert ea == MarkerName(a)[..|MarkerName(a)| - 6];
    assert eb == MarkerName(b)[..|MarkerName(b)| - 6];
    UnescapeEscape(a);
    UnescapeEscape(b);
  }

  /** Distinct well-formed references never share a marker file. */
  lemma MarkerOfReferenceInjective(a: Reference, b: Reference)
    requires WellFormed(a) && WellFormed(b)
    requires MarkerName(ToString(a)) == MarkerName(ToString(b))
    ensures a == b
  {
    MarkerNameInjective(ToString(a), ToString(b));
    ToStringInjective(a, b);
  }
}
