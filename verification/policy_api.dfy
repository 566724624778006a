/**
 String and equality helpers of the network-policy API: resource names
 qualified by namespace and config name, layer-4 protocol parsing, and the
 equality, ordering and membership helpers of HTTP, DNS and generic L7
 rules.
 */
module PolicyApi {
  import opened Wrappers
  import Strings

  // ---------------------------------------------------------------------------
  // Qualified resource names
  // ---------------------------------------------------------------------------

  /** An option of `ResourceQualifiedName`; values other than `ForceNamespace` are ignored. */
  type NameOption = int

  const ForceNamespace: NameOption := 0

  datatype QualifiedName = QualifiedName(name: string, updated: bool)

  /**
   The name `namespace/cecName/resourceName` for a resource of the config
   `cecName` in `namespace`. An empty name stays empty. A name that already
   has a '/' is kept, unless `ForceNamespace` is given and its first
   component is not exactly `namespace`.
   */
  function ResourceQualifiedName(namespace: string, cecName: string, resourceName: string, options: seq<NameOption>)
    : (r: QualifiedName)
    ensures resourceName == "" ==> r == QualifiedName(resourceName, false)
    ensures !r.updated ==> r.name == resourceName
    ensures r.updated ==> r.name == namespace + "/" + cecName + "/" + resourceName
    ensures ForceNamespace !in options ==> (r.updated <==> resourceName != "" && '/' !in resourceName)
    ensures ForceNamespace in options && resourceName != "" ==>
              (!r.updated <==>
                && '/' !in namespace
                && |namespace| < |resourceName|
                && resourceName[..|namespace|] == namespace
                && resourceName[|namespace|] == '/')
  {
    var forceNamespace := ForceNamespace in options;
    var idx := Strings.IndexOf(resourceName, '/');
    if resourceName == ""
       || (idx >= 0 && (!forceNamespace || (idx == |namespace| && Strings.HasPrefix(resourceName, namespace))))
    then
      QualifiedName(resourceName, false)
    else
      QualifiedName(namespace + "/" + cecName + "/" + resourceName, true)
  }

  datatype QualifiedParts = QualifiedParts(namespace: string, name: string, resourceName: string)

  /**
   Splits a qualified name at its first two '/'. A name with fewer than two
   '/' has no namespace or config name and is all resource name.
   */
  function ParseQualifiedName(qualifiedName: string): (r: QualifiedParts)
    ensures Strings.Occurrences(qualifiedName, '/') < 2 ==> r == QualifiedParts("", "", qualifiedName)
    ensures Strings.Occurrences(qualifiedName, '/') >= 2 ==>
              && '/' !in r.namespace && '/' !in r.name
              && r.namespace + "/" + r.name + "/" + r.resourceName == qualifiedName
  {
    var parts := Strings.SplitN(qualifiedName, '/', 3);
    if |parts| < 3 then
      QualifiedParts("", "", qualifiedName)
    else
      assert parts[1..][1..] == [parts[2]];
      assert Strings.Join(parts[1..], '/') == parts[1] + "/" + parts[2];
      assert Strings.Join(parts, '/') == parts[0] + "/" + (parts[1] + "/" + parts[2]);
      QualifiedParts(parts[0], parts[1], parts[2])
  }

  // ---------------------------------------------------------------------------
  // Layer-4 protocols
  // ---------------------------------------------------------------------------

  type L4Proto = string

  const ProtoAny: L4Proto := "ANY"
  const ProtoTCP: L4Proto := "TCP"
  const ProtoUDP: L4Proto := "UDP"
  const ProtoSCTP: L4Proto := "SCTP"

  datatype ProtoError = InvalidProtocol(proto: L4Proto)

  /** An error exactly for a protocol outside `{ANY, TCP, UDP, SCTP}`, naming that protocol. */
  function Validate(l4: L4Proto): (err: Option<ProtoError>)
    ensures err.None? <==> l4 in {ProtoAny, ProtoTCP, ProtoUDP, ProtoSCTP}
    ensures err.Some? ==> err.value.proto == l4
  {
    if l4 == ProtoAny || l4 == ProtoTCP || l4 == ProtoUDP || l4 == ProtoSCTP then None
    else Some(InvalidProtocol(l4))
  }

  datatype ParsedProto = ParsedProto(proto: L4Proto, err: Option<ProtoError>)

  /**
   The empty string means any protocol; anything else is upper-cased and
   returned together with its validation error, if any.
   */
  function ParseL4Proto(proto: string): (r: ParsedProto)
    ensures proto == "" ==> r == ParsedProto(ProtoAny, None)
    ensures proto != "" ==> r.proto == Strings.ToUpper(proto)
    ensures r.err.None? <==> r.proto in {ProtoAny, ProtoTCP, ProtoUDP, ProtoSCTP}
    ensures r.err.Some? ==> r.err.value == InvalidProtocol(r.proto)
  {
    if proto == "" then ParsedProto(ProtoAny, None)
    else
      var p := Strings.ToUpper(proto);
      ParsedProto(p, Validate(p))
  }

  // ---------------------------------------------------------------------------
  // Rule types (only the fields the helpers read)
  // ---------------------------------------------------------------------------

  /** A reference to a secret holding a header value. */
  datatype Secret = Secret(namespace: string, name: string)

  /** A header to match; `secret` is a nil-able pointer. */
  datatype HeaderMatch = HeaderMatch(mismatch: string, name: string, value: string, secret: Option<Secret>)

  /** An HTTP rule. Its header matches are nil-able pointers. */
  datatype PortRuleHTTP = PortRuleHTTP(
    path: string, httpMethod: string, host: string, headers: seq<string>, headerMatches: seq<Option<HeaderMatch>>)

  datatype PortRuleDNS = PortRuleDNS(matchName: string, matchPattern: string)

  /** A generic L7 rule: a key/value map. */
  type PortRuleL7 = map<string, string>

  /** The L7 rules of a port, by protocol. */
  datatype L7Rules = L7Rules(http: seq<PortRuleHTTP>, dns: seq<PortRuleDNS>, l7: seq<PortRuleL7>)

  // ---------------------------------------------------------------------------
  // Equality
  // ---------------------------------------------------------------------------

  /** Two secret pointers are equal when both are nil or both point to equal secrets. */
  function SecretEqual(a: Option<Secret>, b: Option<Secret>): (r: bool)
    ensures r <==> a == b
  {
    (a.None? && b.None?) || (a.Some? && b.Some? && a.value == b.value)
  }

  function HeaderMatchEqual(h: HeaderMatch, o: HeaderMatch): (r: bool)
    ensures r <==> h == o
  {
    !(h.mismatch != o.mismatch || h.name != o.name || h.value != o.value || !SecretEqual(h.secret, o.secret))
  }

  /** Position-wise equality of two header lists of the same length. */
  function HeadersEqual(hs: seq<string>, os: seq<string>): (r: bool)
    requires |hs| == |os|
    ensures r <==> hs == os
  {
    if |hs| == 0 then true
    else if os[0] != hs[0] then false
    else
      var rest := HeadersEqual(hs[1..], os[1..]);
      assert hs == [hs[0]] + hs[1..] && os == [os[0]] + os[1..];
      rest
  }

  /**
   The element-wise `Equal` loop over two header-match lists never reaches a
   nil element: every position whose predecessors all agree holds two
   non-nil matches. (`Equal` dereferences both.)
   */
  predicate MatchesComparable(hs: seq<Option<HeaderMatch>>, os: seq<Option<HeaderMatch>>)
  {
    forall i :: 0 <= i < |hs| && i < |os| && hs[..i] == os[..i] ==> hs[i].Some? && os[i].Some?
  }

  /** Position-wise equality of two header-match lists of the same length. */
  function HeaderMatchesEqual(hs: seq<Option<HeaderMatch>>, os: seq<Option<HeaderMatch>>): (r: bool)
    requires |hs| == |os| && MatchesComparable(hs, os)
    ensures r <==> hs == os
  {
    if |hs| == 0 then true
    else
      assert hs[..0] == os[..0];
      if !HeaderMatchEqual(os[0].value, hs[0].value) then false
      else
        assert MatchesComparable(hs[1..], os[1..]) by {
          forall i | 0 <= i < |hs| - 1 && hs[1..][..i] == os[1..][..i]
            ensures hs[1..][i].Some? && os[1..][i].Some?
          {
            assert hs[..i + 1] == [hs[0]] + hs[1..][..i];
            assert os[..i + 1] == [os[0]] + os[1..][..i];
          }
        }
        var rest := HeaderMatchesEqual(hs[1..], os[1..]);
        assert hs == [hs[0]] + hs[1..] && os == [os[0]] + os[1..];
        rest
  }

  /**
   `PortRuleHTTP.Equal` does not panic: when the scalar fields and headers
   agree and the match lists have the same length, the loop over header
   matches meets no nil element.
   */
  predicate HttpRuleComparable(h: PortRuleHTTP, o: PortRuleHTTP)
  {
    h.path == o.path && h.httpMethod == o.httpMethod && h.host == o.host && h.headers == o.headers
    && |h.headerMatches| == |o.headerMatches|
    ==> MatchesComparable(h.headerMatches, o.headerMatches)
  }

  /** Two HTTP rules are equal when every field is. */
  function HttpRuleEqual(h: PortRuleHTTP, o: PortRuleHTTP): (r: bool)
    requires HttpRuleComparable(h, o)
    ensures r <==> h == o
  {
    if h.path != o.path || h.httpMethod != o.httpMethod || h.host != o.host
       || |h.headers| != |o.headers| || |h.headerMatches| != |o.headerMatches|
    then false
    else HeadersEqual(h.headers, o.headers) && HeaderMatchesEqual(h.headerMatches, o.headerMatches)
  }

  /** A DNS rule pointer equals a rule when it is non-nil and both fields agree. */
  function DnsRuleEqual(d: Option<PortRuleDNS>, o: PortRuleDNS): (r: bool)
    ensures r <==> d == Some(o)
  {
    d.Some? && d.value.matchName == o.matchName && d.value.matchPattern == o.matchPattern
  }

  /** Two L7 maps are equal when they have as many entries and every entry of one is in the other. */
  function L7RuleEqual(h: PortRuleL7, o: PortRuleL7): (r: bool)
    ensures r <==> h == o
  {
    var sameEntries := forall k :: k in h ==> k in o && o[k] == h[k];
    if sameEntries && |h| == |o| then
      SameSizeSubMapIsEqual(h, o);
      true
    else
      false
  }

  lemma SameSizeSubMapIsEqual(h: map<string, string>, o: map<string, string>)
    requires forall k :: k in h ==> k in o && o[k] == h[k]
    requires |h| == |o|
    ensures h == o
  {
    assert o.Keys == h.Keys + (o.Keys - h.Keys);
    assert |o.Keys - h.Keys| == 0;
  }

  // ---------------------------------------------------------------------------
  // Membership
  // ---------------------------------------------------------------------------

  /**
   `f` can be called on every element `slices.ContainsFunc` reaches: each
   element all of whose predecessors were rejected.
   */
  ghost predicate ReachedDefined<T>(s: seq<T>, f: T --> bool)
  {
    forall i :: 0 <= i < |s| && (forall j :: 0 <= j < i ==> f.requires(s[j]) && !f(s[j])) ==> f.requires(s[i])
  }

  /** `slices.ContainsFunc`: whether some element satisfies `f`, stopping at the first that does. */
  function ContainsFunc<T>(s: seq<T>, f: T --> bool): (r: bool)
    requires ReachedDefined(s, f)
    ensures r <==> exists i :: 0 <= i < |s| && f.requires(s[i]) && f(s[i])
    ensures !r ==> forall i :: 0 <= i < |s| ==> f.requires(s[i]) && !f(s[i])
  {
    if |s| == 0 then false
    else
      assert f.requires(s[0]);
      if f(s[0]) then true
      else
        assert ReachedDefined(s[1..], f) by {
          forall i | 0 <= i < |s| - 1 && (forall j :: 0 <= j < i ==> f.requires(s[1..][j]) && !f(s[1..][j]))
            ensures f.requires(s[1..][i])
          {
            forall j | 0 <= j < i + 1 ensures f.requires(s[j]) && !f(s[j]) {
              if j > 0 { assert s[j] == s[1..][j - 1]; }
            }
          }
        }
        var rest := ContainsFunc(s[1..], f);
        assert forall i :: 1 <= i < |s| ==> s[i] == s[1..][i - 1];
        rest
  }

  /** `f` defined on every element up to the first `x` is defined on every element `ContainsFunc` reaches when it accepts only `x`. */
  lemma {:induction false} ReachedUpToFirst<T>(s: seq<T>, x: T, f: T --> bool)
    requires forall i :: 0 <= i < |s| && x !in s[..i] ==> f.requires(s[i]) && (f(s[i]) <==> s[i] == x)
    ensures ReachedDefined(s, f)
  {
    forall i | 0 <= i < |s| && (forall j :: 0 <= j < i ==> f.requires(s[j]) && !f(s[j]))
      ensures f.requires(s[i])
    {
      NoEarlierMatch(s, x, f, i);
    }
  }

  /** If every element before position `i` was rejected, none of them is the first `x`, so none is `x`. */
  lemma {:induction false} NoEarlierMatch<T>(s: seq<T>, x: T, f: T --> bool, i: nat)
    requires i <= |s|
    requires forall k :: 0 <= k < |s| && x !in s[..k] ==> f.requires(s[k]) && (f(s[k]) <==> s[k] == x)
    requires forall j :: 0 <= j < i ==> f.requires(s[j]) && !f(s[j])
    ensures x !in s[..i]
  {
    if i > 0 {
      NoEarlierMatch(s, x, f, i - 1);
      assert s[..i] == s[..i - 1] + [s[i - 1]];
      assert f.requires(s[i - 1]) && !f(s[i - 1]);
    }
  }

  /**
   When `f` is defined on, and accepts exactly `x` among, the elements up to
   and including the first `x`, `ContainsFunc` is membership of `x`.
   */
  lemma {:induction false} ContainsFuncFindsEqual<T>(s: seq<T>, x: T, f: T --> bool)
    requires forall i :: 0 <= i < |s| && x !in s[..i] ==> f.requires(s[i]) && (f(s[i]) <==> s[i] == x)
    ensures ReachedDefined(s, f)
    ensures ContainsFunc(s, f) <==> x in s
  {
    ReachedUpToFirst(s, x, f);
    if |s| > 0 {
      assert s[..0] == [];
      if s[0] != x {
        forall i | 0 <= i < |s| - 1 && x !in s[1..][..i]
          ensures f.requires(s[1..][i]) && (f(s[1..][i]) <==> s[1..][i] == x)
        {
          assert s[..i + 1] == [s[0]] + s[1..][..i];
        }
        ContainsFuncFindsEqual(s[1..], x, f);
        assert s == [s[0]] + s[1..];
      }
    }
  }

  /**
   `Equal` is called on the rules `ContainsFunc` reaches: every rule before
   which no rule equals `h`.
   */
  function HttpRuleExists(h: PortRuleHTTP, rules: L7Rules): (r: bool)
    requires forall i :: 0 <= i < |rules.http| && h !in rules.http[..i] ==> HttpRuleComparable(h, rules.http[i])
    ensures r <==> h in rules.http
  {
    var f := o requires HttpRuleComparable(h, o) => HttpRuleEqual(h, o);
    ContainsFuncFindsEqual(rules.http, h, f);
    ContainsFunc(rules.http, f)
  }

  function DnsRuleExists(d: Option<PortRuleDNS>, rules: L7Rules): (r: bool)
    ensures r <==> d.Some? && d.value in rules.dns
  {
    ContainsFunc(rules.dns, o => DnsRuleEqual(d, o))
  }

  function L7RuleExists(h: PortRuleL7, rules: L7Rules): (r: bool)
    ensures r <==> h in rules.l7
  {
    ContainsFunc(rules.l7, o => L7RuleEqual(h, o))
  }

  // ---------------------------------------------------------------------------
  // Ordering
  // ---------------------------------------------------------------------------

  /** Secret pointers: nil sorts first, then by namespace, then by name. */
  function SecretCompare(a: Option<Secret>, b: Option<Secret>): (r: int)
    ensures -1 <= r <= 1
    ensures r == 0 <==> a == b
    ensures a.None? && b.Some? ==> r == -1
    ensures a.Some? && b.None? ==> r == 1
  {
    if a.None? && b.None? then 0
    else if a.None? then -1
    else if b.None? then 1
    else
      var n := Strings.Compare(a.value.namespace, b.value.namespace);
      if n != 0 then n
      else Strings.Compare(a.value.name, b.value.name)
  }

  /** Header-match pointers: nil sorts first, then by name, value, mismatch action and secret. */
  function HeaderMatchCompare(h: Option<HeaderMatch>, o: Option<HeaderMatch>): (r: int)
    ensures -1 <= r <= 1
    ensures r == 0 <==> h == o
    ensures h.None? && o.Some? ==> r == -1
    ensures h.Some? && o.None? ==> r == 1
  {
    if h.None? && o.None? then 0
    else if h.None? then -1
    else if o.None? then 1
    else
      var a, b := h.value, o.value;
      var n1 := Strings.Compare(a.name, b.name);
      if n1 != 0 then n1
      else
        var n2 := Strings.Compare(a.value, b.value);
        if n2 != 0 then n2
        else
          var n3 := Strings.Compare(a.mismatch, b.mismatch);
          if n3 != 0 then n3
          else SecretCompare(a.secret, b.secret)
  }

  /** Position-wise comparison of two header lists of the same length: the first difference decides. */
  function CompareHeaders(hs: seq<string>, os: seq<string>): (r: int)
    requires |hs| == |os|
    ensures -1 <= r <= 1
    ensures r == 0 <==> hs == os
  {
    if |hs| == 0 then 0
    else
      var n := Strings.Compare(hs[0], os[0]);
      if n != 0 then n
      else
        var rest := CompareHeaders(hs[1..], os[1..]);
        assert hs == [hs[0]] + hs[1..] && os == [os[0]] + os[1..];
        rest
  }

  /** Position-wise comparison of two header-match lists of the same length; a nil match sorts first. */
  function CompareHeaderMatches(hs: seq<Option<HeaderMatch>>, os: seq<Option<HeaderMatch>>): (r: int)
    requires |hs| == |os|
    ensures -1 <= r <= 1
    ensures r == 0 <==> hs == os
  {
    if |hs| == 0 then 0
    else
      var n := HeaderMatchCompare(hs[0], os[0]);
      if n != 0 then n
      else
        var rest := CompareHeaderMatches(hs[1..], os[1..]);
        assert hs == [hs[0]] + hs[1..] && os == [os[0]] + os[1..];
        rest
  }

  /**
   HTTP rules ordered by path, method, host, then the number of headers and
   the headers, then the number of header matches and the header matches.
   A difference in length is reported as the difference itself.
   */
  function HttpRuleCompare(h: PortRuleHTTP, o: PortRuleHTTP): (r: int)
    ensures r == 0 <==> h == o
    ensures h.path != o.path ==> r == Strings.Compare(h.path, o.path)
    ensures h.path == o.path && h.httpMethod != o.httpMethod ==> r == Strings.Compare(h.httpMethod, o.httpMethod)
    ensures h.path == o.path && h.httpMethod == o.httpMethod && h.host != o.host ==> r == Strings.Compare(h.host, o.host)
    ensures h.path == o.path && h.httpMethod == o.httpMethod && h.host == o.host && |h.headers| != |o.headers| ==>
              r == |h.headers| - |o.headers|
    ensures (h.path == o.path && h.httpMethod == o.httpMethod && h.host == o.host
             && |h.headers| == |o.headers| && h.headers != o.headers) ==>
              r == CompareHeaders(h.headers, o.headers)
    ensures (h.path == o.path && h.httpMethod == o.httpMethod && h.host == o.host
             && h.headers == o.headers && |h.headerMatches| != |o.headerMatches|) ==>
              r == |h.headerMatches| - |o.headerMatches|
    ensures (h.path == o.path && h.httpMethod == o.httpMethod && h.host == o.host
             && h.headers == o.headers && |h.headerMatches| == |o.headerMatches|) ==>
              r == CompareHeaderMatches(h.headerMatches, o.headerMatches)
  {
    var n1 := Strings.Compare(h.path, o.path);
    if n1 != 0 then n1
    else
      var n2 := Strings.Compare(h.httpMethod, o.httpMethod);
      if n2 != 0 then n2
      else
        var n3 := Strings.Compare(h.host, o.host);
        if n3 != 0 then n3
        else if |h.headers| != |o.headers| then |h.headers| - |o.headers|
        else
          var n4 := CompareHeaders(h.headers, o.headers);
          if n4 != 0 then n4
          else if |h.headerMatches| != |o.headerMatches| then |h.headerMatches| - |o.headerMatches|
          else CompareHeaderMatches(h.headerMatches, o.headerMatches)
  }
}
