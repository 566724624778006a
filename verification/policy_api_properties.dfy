/** Properties of the policy API's naming, protocol and rule helpers. */
module PolicyApiProperties {
  import opened Wrappers
  import Strings
  import opened PolicyApi

  // ---------------------------------------------------------------------------
  // Qualified names
  // ---------------------------------------------------------------------------

  /** A name with two slash-free leading components parses into its three components. */
  lemma ParseOfThreeComponents(namespace: string, cecName: string, resourceName: string)
    requires '/' !in namespace && '/' !in cecName
    ensures ParseQualifiedName(namespace + "/" + cecName + "/" + resourceName)
            == QualifiedParts(namespace, cecName, resourceName)
  {
    var tail := cecName + "/" + resourceName;
    assert namespace + "/" + cecName + "/" + resourceName == namespace + ['/'] + tail;
    Strings.SplitNAfterPrefix(namespace, '/', tail, 3);
    Strings.SplitNAfterPrefix(cecName, '/', resourceName, 2);
  }

  /**
   Parsing a name the qualifier produced gives back the namespace, the
   config name and the resource name, provided the first two are slash-free.
   */
  lemma ParseInvertsQualify(namespace: string, cecName: string, resourceName: string, options: seq<NameOption>)
    requires '/' !in namespace && '/' !in cecName
    requires ResourceQualifiedName(namespace, cecName, resourceName, options).updated
    ensures ParseQualifiedName(ResourceQualifiedName(namespace, cecName, resourceName, options).name)
            == QualifiedParts(namespace, cecName, resourceName)
  {
    ParseOfThreeComponents(namespace, cecName, resourceName);
  }

  /**
   A qualified name is final: qualifying it again in the same slash-free
   namespace, under any config name and with or without `ForceNamespace`,
   keeps it unchanged.
   */
  lemma QualifiedNameIsFinal(
    namespace: string, cecName: string, resourceName: string, options: seq<NameOption>,
    otherCec: string, otherOptions: seq<NameOption>)
    requires '/' !in namespace
    requires ResourceQualifiedName(namespace, cecName, resourceName, options).updated
    ensures var name := ResourceQualifiedName(namespace, cecName, resourceName, options).name;
            ResourceQualifiedName(namespace, otherCec, name, otherOptions) == QualifiedName(name, false)
  {
    var name := namespace + "/" + cecName + "/" + resourceName;
    assert name[|namespace|] == '/';
    assert name[..|namespace|] == namespace;
  }

  /** Qualifying is idempotent in a slash-free namespace. */
  lemma QualifyIdempotent(namespace: string, cecName: string, resourceName: string, options: seq<NameOption>)
    requires '/' !in namespace
    ensures var r := ResourceQualifiedName(namespace, cecName, resourceName, options);
            ResourceQualifiedName(namespace, cecName, r.name, options) == QualifiedName(r.name, false)
  {
    if ResourceQualifiedName(namespace, cecName, resourceName, options).updated {
      QualifiedNameIsFinal(namespace, cecName, resourceName, options, cecName, options);
    }
  }

  // ---------------------------------------------------------------------------
  // Layer-4 protocols
  // ---------------------------------------------------------------------------

  /** Parsing ignores ASCII case. */
  lemma ParseL4ProtoIgnoresCase(s: string, t: string)
    requires Strings.ToUpper(s) == Strings.ToUpper(t)
    ensures ParseL4Proto(s) == ParseL4Proto(t)
  {
    assert |s| == |Strings.ToUpper(s)|;
  }

  /** Parsing accepts exactly the empty string and the spellings of the four known protocols. */
  lemma ParseL4ProtoAccepts(s: string)
    ensures ParseL4Proto(s).err.None? <==>
              s == "" || Strings.ToUpper(s) in {ProtoAny, ProtoTCP, ProtoUDP, ProtoSCTP}
  {
  }

  /** Sanity examples only: three concrete spellings; `ParseL4ProtoAccepts` states the general fact. */
  lemma ParseL4ProtoExamples()
    ensures ParseL4Proto("tcp") == ParsedProto(ProtoTCP, None)
    ensures ParseL4Proto("Sctp") == ParsedProto(ProtoSCTP, None)
    ensures ParseL4Proto("any") == ParsedProto(ProtoAny, None)
  {
  }

  // ---------------------------------------------------------------------------
  // Ordering
  // ---------------------------------------------------------------------------

  lemma SecretCompareAntisymmetric(a: Option<Secret>, b: Option<Secret>)
    ensures SecretCompare(a, b) == -SecretCompare(b, a)
  {
    if a.Some? && b.Some? {
      Strings.CompareAntisymmetric(a.value.namespace, b.value.namespace);
      Strings.CompareAntisymmetric(a.value.name, b.value.name);
    }
  }

  lemma HeaderMatchCompareAntisymmetric(h: Option<HeaderMatch>, o: Option<HeaderMatch>)
    ensures HeaderMatchCompare(h, o) == -HeaderMatchCompare(o, h)
  {
    if h.Some? && o.Some? {
      Strings.CompareAntisymmetric(h.value.name, o.value.name);
      Strings.CompareAntisymmetric(h.value.value, o.value.value);
      Strings.CompareAntisymmetric(h.value.mismatch, o.value.mismatch);
      SecretCompareAntisymmetric(h.value.secret, o.value.secret);
    }
  }

  lemma {:induction false} CompareHeadersAntisymmetric(hs: seq<string>, os: seq<string>)
    requires |hs| == |os|
    ensures CompareHeaders(hs, os) == -CompareHeaders(os, hs)
  {
    if |hs| > 0 {
      Strings.CompareAntisymmetric(hs[0], os[0]);
      CompareHeadersAntisymmetric(hs[1..], os[1..]);
    }
  }

  lemma {:induction false} CompareHeaderMatchesAntisymmetric(hs: seq<Option<HeaderMatch>>, os: seq<Option<HeaderMatch>>)
    requires |hs| == |os|
    ensures CompareHeaderMatches(hs, os) == -CompareHeaderMatches(os, hs)
  {
    if |hs| > 0 {
      HeaderMatchCompareAntisymmetric(hs[0], os[0]);
      CompareHeaderMatchesAntisymmetric(hs[1..], os[1..]);
    }
  }

  /** In two header lists of the same length, the first differing position decides the comparison. */
  lemma {:induction false} CompareHeadersFirstDifference(hs: seq<string>, os: seq<string>, k: nat)
    requires |hs| == |os| && k < |hs|
    requires hs[..k] == os[..k] && hs[k] != os[k]
    ensures CompareHeaders(hs, os) == Strings.Compare(hs[k], os[k])
  {
    if k > 0 {
      assert hs[0] == hs[..k][0] && os[0] == os[..k][0];
      assert hs[1..][..k - 1] == hs[..k][1..] && os[1..][..k - 1] == os[..k][1..];
      CompareHeadersFirstDifference(hs[1..], os[1..], k - 1);
    }
  }

  /** In two header-match lists of the same length, the first differing position decides the comparison. */
  lemma {:induction false} CompareHeaderMatchesFirstDifference(hs: seq<Option<HeaderMatch>>, os: seq<Option<HeaderMatch>>, k: nat)
    requires |hs| == |os| && k < |hs|
    requires hs[..k] == os[..k] && hs[k] != os[k]
    ensures CompareHeaderMatches(hs, os) == HeaderMatchCompare(hs[k], os[k])
  {
    if k > 0 {
      assert hs[0] == hs[..k][0] && os[0] == os[..k][0];
      assert hs[1..][..k - 1] == hs[..k][1..] && os[1..][..k - 1] == os[..k][1..];
      CompareHeaderMatchesFirstDifference(hs[1..], os[1..], k - 1);
    }
  }

  /** Swapping two HTTP rules negates their comparison. */
  lemma HttpRuleCompareAntisymmetric(h: PortRuleHTTP, o: PortRuleHTTP)
    ensures HttpRuleCompare(h, o) == -HttpRuleCompare(o, h)
  {
    Strings.CompareAntisymmetric(h.path, o.path);
    Strings.CompareAntisymmetric(h.httpMethod, o.httpMethod);
    Strings.CompareAntisymmetric(h.host, o.host);
    if |h.headers| == |o.headers| {
      CompareHeadersAntisymmetric(h.headers, o.headers);
    }
    if |h.headerMatches| == |o.headerMatches| {
      CompareHeaderMatchesAntisymmetric(h.headerMatches, o.headerMatches);
    }
  }

  /** Equality and comparison of HTTP rules agree. */
  lemma HttpRuleEqualIffCompareZero(h: PortRuleHTTP, o: PortRuleHTTP)
    requires HttpRuleComparable(h, o)
    ensures HttpRuleEqual(h, o) <==> HttpRuleCompare(h, o) == 0
  {
  }
}
